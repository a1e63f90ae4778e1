/**
 * The bit-vector HashTable of src/hashtable.cpp, an interner of substrings
 * of a text T.
 *
 * Records live in one growing buffer of bits (an sdsl bit_vector, LSB-first
 * fields as in BitVec). A record at bit idx starts with an 8-bit sentinel,
 * then the type bit at idx + 8: 0 for a short record (length <= SS_LIMIT),
 * 1 for a long one.
 *   short: length in SS_BITS bits, 8 bits per character, then the name;
 *   long:  position in T in LSI_BITS bits, length in LSL_BITS bits, the name.
 * Length 0 ends a chain and length 1 marks a link record whose 64-bit
 * pointer (after the short length field) continues the chain in another
 * block of the buffer. head[h] is the first record of the chain of hash h
 * and rest[h] is the room left in its last block.
 */
module HashTables {
  import opened Common
  import opened BitVec
  import opened Utility

  /** SW_BITS: the sentinel width; the type bit follows it. */
  const SwBits := 8

  /** The field widths a table fixes at construction. */
  datatype Widths = Widths(ssLimit: nat, ssBits: nat, lsiBits: nat, lslBits: nat, nameBits: nat)

  /**
   * The widths as the constructor computes them: LSI_BITS = LSL_BITS =
   * NAME_BITS = position_of_msb(n) and SS_BITS = position_of_msb(SS_LIMIT),
   * so every length up to SS_LIMIT fits a short length field.
   */
  ghost predicate WidthsOK(w: Widths) {
    1 <= w.ssBits <= 7 && w.ssLimit < Pow2(w.ssBits) &&
    1 <= w.lsiBits <= 64 && w.lslBits == w.lsiBits && w.nameBits == w.lsiBits
  }

  /** A link record: sentinel, type bit, a short length field and the 64-bit pointer. */
  function LinkSize(w: Widths): nat {
    SwBits + 1 + w.ssBits + 64
  }

  /** The bits a record of length len takes, as skip_string and insert_string count them. */
  function RecordSize(w: Widths, len: nat): (r: nat)
    ensures len <= w.ssLimit ==> r == SwBits + 1 + w.ssBits + 8 * len + w.nameBits
    ensures len > w.ssLimit ==> r == SwBits + 1 + w.lsiBits + w.lslBits + w.nameBits
  {
    if len <= w.ssLimit then SwBits + 1 + w.ssBits + 8 * len + w.nameBits
    else SwBits + 1 + w.lsiBits + w.lslBits + w.nameBits
  }

  /** The type bit of the record at idx is 0. */
  function IsShort(b: seq<bool>, idx: nat): bool
    requires idx + SwBits < |b|
  {
    !b[idx + SwBits]
  }

  /** get_length's reads stay inside the buffer. */
  ghost predicate LengthReadable(w: Widths, b: seq<bool>, idx: nat) {
    idx + SwBits < |b| &&
    (if !b[idx + SwBits] then idx + SwBits + 1 + w.ssBits <= |b|
     else idx + SwBits + 1 + w.lsiBits + w.lslBits <= |b|)
  }

  /**
   * `get_length(idx)`: the SS_BITS field after the type bit of a short
   * record, the LSL_BITS field after the position of a long one.
   */
  function GetLength(w: Widths, b: seq<bool>, idx: nat): (r: nat)
    requires LengthReadable(w, b, idx)
    ensures IsShort(b, idx) ==> r == GetInt(b, idx + SwBits + 1, w.ssBits)
    ensures !IsShort(b, idx) ==> r == GetInt(b, idx + SwBits + 1 + w.lsiBits, w.lslBits)
  {
    if !b[idx + SwBits] then GetInt(b, idx + SwBits + 1, w.ssBits)
    else GetInt(b, idx + SwBits + 1 + w.lsiBits, w.lslBits)
  }

  /** `get_pointer(idx)`: the 64 bits after the short length field. */
  function GetPointer(w: Widths, b: seq<bool>, idx: nat): (r: nat)
    requires idx + LinkSize(w) <= |b|
    ensures r < 0x1_0000_0000_0000_0000
  {
    Pow2Word64();
    GetInt(b, idx + SwBits + 1 + w.ssBits, 64)
  }

  /** `skip_string(idx)`: the bit just past the record at idx. */
  function SkipString(w: Widths, b: seq<bool>, idx: nat): (r: nat)
    requires LengthReadable(w, b, idx)
    ensures r == idx + RecordSize(w, GetLength(w, b, idx))
  {
    var length := GetLength(w, b, idx);
    if length <= w.ssLimit then idx + SwBits + 1 + w.ssBits + length * 8 + w.nameBits
    else idx + SwBits + 1 + w.lsiBits + w.lslBits + w.nameBits
  }

  /** `get_position(idx)`: the LSI_BITS field after the type bit of a long record. */
  function GetPosition(w: Widths, b: seq<bool>, idx: nat): (r: nat)
    requires idx + SwBits + 1 + w.lsiBits <= |b|
    ensures r < Pow2(w.lsiBits)
  {
    GetInt(b, idx + SwBits + 1, w.lsiBits)
  }

  /** Where the name field of the record at idx starts; a short record's length is cut to a byte first. */
  function NameOffset(w: Widths, b: seq<bool>, idx: nat): (r: nat)
    requires LengthReadable(w, b, idx)
    ensures IsShort(b, idx) ==> r == idx + SwBits + 1 + w.ssBits + 8 * (GetLength(w, b, idx) % 0x100)
    ensures !IsShort(b, idx) ==> r == idx + SwBits + 1 + w.lsiBits + w.lslBits
  {
    if !b[idx + SwBits] then
      var m := GetLength(w, b, idx) % 0x100;
      idx + SwBits + 1 + w.ssBits + 8 * m
    else idx + SwBits + 1 + w.lsiBits + w.lslBits
  }

  /** `get_name(idx)`: the NAME_BITS field after the characters or the length. */
  function GetName(w: Widths, b: seq<bool>, idx: nat): (r: nat)
    requires LengthReadable(w, b, idx) && NameOffset(w, b, idx) + w.nameBits <= |b|
    ensures r < Pow2(w.nameBits)
  {
    GetInt(b, NameOffset(w, b, idx), w.nameBits)
  }

  /**
   * `get_nth_character(T, idx, n)`: character n of a short record is read
   * from the buffer, of a long record from T at the stored position.
   */
  function GetNthCharacter(w: Widths, T: seq<uint8>, b: seq<bool>, idx: nat, n: nat): (r: uint8)
    requires idx + SwBits < |b|
    requires IsShort(b, idx) ==> idx + SwBits + 1 + w.ssBits + 8 * n + 8 <= |b|
    requires !IsShort(b, idx) ==> idx + SwBits + 1 + w.lsiBits <= |b| && GetPosition(w, b, idx) + n < |T|
    ensures IsShort(b, idx) ==> r == GetInt(b, idx + SwBits + 1 + w.ssBits + 8 * n, 8)
    ensures !IsShort(b, idx) ==> r == T[GetPosition(w, b, idx) + n]
  {
    if !b[idx + SwBits] then
      GetInt(b, idx + SwBits + 1 + w.ssBits + n * 8, 8)
    else T[GetPosition(w, b, idx) + n]
  }

  /** set_length's writes stay inside the buffer. */
  ghost predicate LengthWritable(w: Widths, b: seq<bool>, idx: nat, length: nat) {
    if length <= w.ssLimit then idx + SwBits + 1 + w.ssBits <= |b|
    else idx + SwBits + 1 + w.lsiBits + w.lslBits <= |b|
  }

  /**
   * The buffer after `set_length(idx, length)`: the type bit says short
   * exactly when length <= SS_LIMIT, and the length goes into that kind's
   * length field.
   */
  function PutLength(w: Widths, b: seq<bool>, idx: nat, length: nat): (r: seq<bool>)
    requires LengthWritable(w, b, idx, length)
    ensures |r| == |b|
  {
    if length <= w.ssLimit then SetInt(b[idx + 8 := false], idx + SwBits + 1, length, w.ssBits)
    else SetInt(b[idx + 8 := true], idx + SwBits + 1 + w.lsiBits, length, w.lslBits)
  }

  /** The buffer after `set_pointer(idx, p)`. */
  function PutPointer(w: Widths, b: seq<bool>, idx: nat, p: nat): (r: seq<bool>)
    requires idx + LinkSize(w) <= |b|
    ensures |r| == |b|
  {
    SetInt(b, idx + SwBits + 1 + w.ssBits, p, 64)
  }

  /** The buffer after `set_position(idx, p)`. */
  function PutPosition(w: Widths, b: seq<bool>, idx: nat, p: nat): (r: seq<bool>)
    requires idx + SwBits + 1 + w.lsiBits <= |b|
    ensures |r| == |b|
  {
    SetInt(b, idx + SwBits + 1, p, w.lsiBits)
  }

  /** The buffer after `set_name(idx, p)`. */
  function PutName(w: Widths, b: seq<bool>, idx: nat, p: nat): (r: seq<bool>)
    requires LengthReadable(w, b, idx) && NameOffset(w, b, idx) + w.nameBits <= |b|
    ensures |r| == |b|
  {
    SetInt(b, NameOffset(w, b, idx), p, w.nameBits)
  }

  /** A bit outside a written field keeps its value. */
  lemma Outside(b: seq<bool>, idx: nat, x: nat, len: nat, j: nat)
    requires idx + len <= |b| && j < |b| && !(idx <= j < idx + len)
    ensures SetInt(b, idx, x, len)[j] == b[j]
  {
  }

  /** A short length set is read back, behind a cleared type bit. */
  lemma ShortLengthRoundTrip(w: Widths, b: seq<bool>, idx: nat, length: nat, at: nat)
    requires length <= w.ssLimit && w.ssLimit < Pow2(w.ssBits)
    requires at == idx + SwBits + 1 && at + w.ssBits <= |b|
    ensures LengthReadable(w, PutLength(w, b, idx, length), idx)
    ensures IsShort(PutLength(w, b, idx, length), idx)
    ensures GetLength(w, PutLength(w, b, idx, length), idx) == length
  {
    var b1 := b[idx + 8 := false];
    Outside(b1, at, length, w.ssBits, idx + SwBits);
    GetIntSetInt(b1, at, length, w.ssBits);
    DivUnique(length, Pow2(w.ssBits), 0, length);
  }

  /** A long length set is read back, behind a set type bit. */
  lemma LongLengthRoundTrip(w: Widths, b: seq<bool>, idx: nat, length: nat, at: nat)
    requires length > w.ssLimit && length < Pow2(w.lslBits)
    requires at == idx + SwBits + 1 + w.lsiBits && at + w.lslBits <= |b|
    ensures LengthReadable(w, PutLength(w, b, idx, length), idx)
    ensures !IsShort(PutLength(w, b, idx, length), idx)
    ensures GetLength(w, PutLength(w, b, idx, length), idx) == length
  {
    var b1 := b[idx + 8 := true];
    Outside(b1, at, length, w.lslBits, idx + SwBits);
    GetIntSetInt(b1, at, length, w.lslBits);
    DivUnique(length, Pow2(w.lslBits), 0, length);
  }

  /** The length set is the length read, when it fits its field, and the record's kind follows it. */
  lemma LengthRoundTrip(w: Widths, b: seq<bool>, idx: nat, length: nat)
    requires WidthsOK(w) && LengthWritable(w, b, idx, length) && length < Pow2(w.lslBits)
    ensures LengthReadable(w, PutLength(w, b, idx, length), idx)
    ensures IsShort(PutLength(w, b, idx, length), idx) <==> length <= w.ssLimit
    ensures GetLength(w, PutLength(w, b, idx, length), idx) == length
  {
    if length <= w.ssLimit {
      ShortLengthRoundTrip(w, b, idx, length, idx + SwBits + 1);
    } else {
      LongLengthRoundTrip(w, b, idx, length, idx + SwBits + 1 + w.lsiBits);
    }
  }

  /** A field read depends only on the bits of the field. */
  lemma GetIntSame(b: seq<bool>, b2: seq<bool>, idx: nat, len: nat)
    requires idx + len <= |b| && idx + len <= |b2|
    requires forall x :: idx <= x < idx + len ==> b2[x] == b[x]
    ensures GetInt(b2, idx, len) == GetInt(b, idx, len)
  {
    assert b2[idx..idx + len] == b[idx..idx + len];
  }

  /** Bit x lies in the length field that set_length(idx, length) writes. */
  predicate InLengthField(w: Widths, idx: nat, length: nat, x: nat) {
    if length <= w.ssLimit then idx + SwBits + 1 <= x < idx + SwBits + 1 + w.ssBits
    else idx + SwBits + 1 + w.lsiBits <= x < idx + SwBits + 1 + w.lsiBits + w.lslBits
  }

  /** set_length touches only the type bit and its own length field. */
  lemma LengthFrame(w: Widths, b: seq<bool>, idx: nat, length: nat)
    requires LengthWritable(w, b, idx, length)
    ensures forall x :: 0 <= x < |b| && x != idx + SwBits && !InLengthField(w, idx, length, x) ==>
                          PutLength(w, b, idx, length)[x] == b[x]
  {
    var b1 := b[idx + 8 := length > w.ssLimit];
    if length <= w.ssLimit {
      SetIntFrame(b1, idx + SwBits + 1, length, w.ssBits);
    } else {
      SetIntFrame(b1, idx + SwBits + 1 + w.lsiBits, length, w.lslBits);
    }
  }

  /** The pointer set is the pointer read; a link's type bit and length are untouched. */
  lemma PointerRoundTrip(w: Widths, b: seq<bool>, idx: nat, p: uint64)
    requires idx + LinkSize(w) <= |b|
    ensures GetPointer(w, PutPointer(w, b, idx, p), idx) == p
    ensures forall x :: 0 <= x < |b| && !(idx + SwBits + 1 + w.ssBits <= x < idx + LinkSize(w)) ==>
      PutPointer(w, b, idx, p)[x] == b[x]
  {
    Pow2Word64();
    GetIntSetInt(b, idx + SwBits + 1 + w.ssBits, p, 64);
    DivUnique(p, 0x1_0000_0000_0000_0000, 0, p);
    SetIntFrame(b, idx + SwBits + 1 + w.ssBits, p, 64);
  }

  /** The position set is the position read, cut to LSI_BITS; nothing else changes. */
  lemma PositionRoundTrip(w: Widths, b: seq<bool>, idx: nat, p: nat)
    requires idx + SwBits + 1 + w.lsiBits <= |b|
    ensures GetPosition(w, PutPosition(w, b, idx, p), idx) == p % Pow2(w.lsiBits)
    ensures forall x :: 0 <= x < |b| && !(idx + SwBits + 1 <= x < idx + SwBits + 1 + w.lsiBits) ==>
      PutPosition(w, b, idx, p)[x] == b[x]
  {
    GetIntSetInt(b, idx + SwBits + 1, p, w.lsiBits);
    SetIntFrame(b, idx + SwBits + 1, p, w.lsiBits);
  }

  /**
   * The name set is the name read, cut to NAME_BITS, when a short record's
   * characters fit below 256 bytes, so that the length field lies before the name.
   */
  lemma NameRoundTrip(w: Widths, b: seq<bool>, idx: nat, p: nat)
    requires LengthReadable(w, b, idx) && NameOffset(w, b, idx) + w.nameBits <= |b|
    ensures LengthReadable(w, PutName(w, b, idx, p), idx)
    ensures IsShort(PutName(w, b, idx, p), idx) == IsShort(b, idx)
    ensures GetLength(w, PutName(w, b, idx, p), idx) == GetLength(w, b, idx)
    ensures NameOffset(w, PutName(w, b, idx, p), idx) == NameOffset(w, b, idx)
    ensures GetName(w, PutName(w, b, idx, p), idx) == p % Pow2(w.nameBits)
  {
    var at := NameOffset(w, b, idx);
    var b2 := PutName(w, b, idx, p);
    SetIntFrame(b, at, p, w.nameBits);
    assert b2[idx + SwBits] == b[idx + SwBits];
    if IsShort(b, idx) {
      GetIntSame(b, b2, idx + SwBits + 1, w.ssBits);
    } else {
      GetIntSame(b, b2, idx + SwBits + 1 + w.lsiBits, w.lslBits);
    }
    GetIntSetInt(b, at, p, w.nameBits);
  }

  /** A field of cleared bits reads 0. */
  lemma {:induction false} ValueOfCleared(s: seq<bool>)
    requires forall x :: 0 <= x < |s| ==> !s[x]
    ensures Value(s) == 0
  {
    if s != [] {
      ValueOfCleared(s[1..]);
    }
  }

  // The polynomial hash.

  function Pow101(e: nat): (r: nat)
    ensures r >= 1
  {
    if e == 0 then 1 else 101 * Pow101(e - 1)
  }

  /** The sum of s[i] * 101^(|s| - 1 - i), without wrap-around. */
  function Weighted(s: seq<uint8>): nat {
    if s == [] then 0 else s[0] * Pow101(|s| - 1) + Weighted(s[1..])
  }

  /** Appending a character multiplies the sum by 101 and adds the character: Horner's rule. */
  lemma {:induction false} WeightedSnoc(s: seq<uint8>, c: uint8)
    ensures Weighted(s + [c]) == Weighted(s) * 101 + c
  {
    if s != [] {
      assert (s + [c])[1..] == s[1..] + [c];
      WeightedSnoc(s[1..], c);
      calc {
        Weighted(s + [c]);
        s[0] * Pow101(|s|) + Weighted(s[1..] + [c]);
        s[0] * (101 * Pow101(|s| - 1)) + Weighted(s[1..]) * 101 + c;
        { Assoc(s[0], 101, Pow101(|s| - 1)); }
        (s[0] * Pow101(|s| - 1) + Weighted(s[1..])) * 101 + c;
      }
    }
  }

  /** Reducing modulo 2^64 before a Horner step does not change the step's residue. */
  lemma HornerMod(x: nat, c: nat)
    ensures ((x % WORD) * 101 + c) % WORD == (x * 101 + c) % WORD
  {
    var q, r := x / WORD, x % WORD;
    var t := r * 101 + c;
    assert x * 101 + c == WORD * (q * 101) + t;
    DivUnique(t, WORD, t / WORD, t % WORD);
    DivUnique(x * 101 + c, WORD, q * 101 + t / WORD, t % WORD);
  }

  /** The hash of a string for a table of htSize chains: the 64-bit polynomial hash, reduced. */
  function HashOf(s: seq<uint8>, htSize: nat): (r: nat)
    requires htSize >= 1
    ensures r < htSize
  {
    Weighted(s) % WORD % htSize
  }

  // The ghost parse of the buffer into chains.

  /** What the bits of the buffer hold: nothing, a record of chain h, or spare room of chain h. */
  datatype Tag = Unused | Record(chain: nat) | Spare(chain: nat)

  /** A record of a chain: a link, or a data record with its content. */
  datatype Rec = Rec(at: nat, link: bool, content: seq<uint8>)

  /** The bits a record takes. */
  function Span(w: Widths, r: Rec): nat {
    if r.link then LinkSize(w) else RecordSize(w, |r.content|)
  }

  /** Every bit of [lo, hi) is tagged t. */
  ghost predicate Owned(own: seq<Tag>, lo: nat, hi: nat, t: Tag) {
    hi <= |own| && forall x :: lo <= x < hi ==> own[x] == t
  }

  /** The address chain walking visits after i records. */
  function Visit(rc: seq<Rec>, term: nat, i: nat): nat {
    if i < |rc| then rc[i].at else term
  }

  /** The characters of a data record: in the buffer for a short record, in the text for a long one. */
  ghost predicate ContentOK(w: Widths, text: seq<uint8>, b: seq<bool>, r: Rec) {
    !r.link && r.at + Span(w, r) <= |b| &&
    if |r.content| <= w.ssLimit then
      forall j :: 0 <= j < |r.content| ==> GetInt(b, r.at + SwBits + 1 + w.ssBits + 8 * j, 8) == r.content[j]
    else
      GetPosition(w, b, r.at) + |r.content| <= |text| &&
      text[GetPosition(w, b, r.at)..GetPosition(w, b, r.at) + |r.content|] == r.content
  }

  /**
   * Record r parses, and walking on from it reaches next: a link is a short
   * record of length 1 whose pointer is next; a data record has length
   * |content| >= 2, the type its length calls for, the sentinel
   * content[0] + 1 and its characters, and skip_string reaches next.
   */
  ghost predicate RecParse(w: Widths, text: seq<uint8>, b: seq<bool>, r: Rec, next: nat) {
    r.at + Span(w, r) <= |b| &&
    if r.link then
      r.content == [] && IsShort(b, r.at) && GetLength(w, b, r.at) == 1 && GetPointer(w, b, r.at) == next
    else
      2 <= |r.content| && (IsShort(b, r.at) <==> |r.content| <= w.ssLimit) &&
      GetLength(w, b, r.at) == |r.content| && next == r.at + Span(w, r) &&
      GetInt(b, r.at, SwBits) == (r.content[0] as int + 1) % 0x100 && ContentOK(w, text, b, r)
  }

  /** Record r of chain h lies in bits tagged as that chain's and parses. */
  ghost predicate RecOK(w: Widths, text: seq<uint8>, b: seq<bool>, own: seq<Tag>, h: nat, r: Rec, next: nat) {
    1 <= r.at && r.at + Span(w, r) <= |b| && Owned(own, r.at, r.at + Span(w, r), Record(h)) &&
    RecParse(w, text, b, r, next)
  }

  /**
   * The terminator of chain h at term: 64 cleared bits, so its length reads
   * 0, inside the rest - 1 spare bits left in the chain's last block, which
   * leave room for a link record.
   */
  ghost predicate TermOK(w: Widths, b: seq<bool>, own: seq<Tag>, h: nat, term: nat, rest: nat) {
    1 <= term && LinkSize(w) < rest && term + rest - 1 <= |b| && Owned(own, term, term + rest - 1, Spare(h)) &&
    forall x :: term <= x < term + 64 ==> !b[x]
  }

  /**
   * Chain h: empty when its head is 0; otherwise walking from the head visits
   * the records rc in order and then the terminator.
   */
  ghost predicate ChainOK(w: Widths, text: seq<uint8>, b: seq<bool>, own: seq<Tag>, h: nat,
                          head: nat, rest: nat, rc: seq<Rec>, term: nat) {
    if head == 0 then rc == [] && rest == 0
    else
      head == Visit(rc, term, 0) && TermOK(w, b, own, h, term, rest) &&
      forall i :: 0 <= i < |rc| ==> RecOK(w, text, b, own, h, rc[i], Visit(rc, term, i + 1))
  }

  /** The contents of the data records, in chain order. */
  function Strings(rc: seq<Rec>): (r: seq<seq<uint8>>)
    ensures |r| <= |rc|
  {
    if rc == [] then []
    else Strings(rc[..|rc| - 1]) + (if rc[|rc| - 1].link then [] else [rc[|rc| - 1].content])
  }

  ghost predicate Distinct<T>(s: seq<T>) {
    forall i, j :: 0 <= i < j < |s| ==> s[i] != s[j]
  }

  /** The strings of the chain of hash g: none twice, and exactly the keys that hash to g. */
  ghost predicate KeysOK(ss: seq<seq<uint8>>, keys: set<seq<uint8>>, n: nat, g: nat) {
    1 <= n && Distinct(ss) && forall s :: s in ss <==> s in keys && HashOf(s, n) == g
  }

  /**
   * The whole table: every chain parses, chain g holds exactly the interned
   * strings that hash to g, and no chain holds a string twice.
   */
  ghost predicate TableOK(w: Widths, text: seq<uint8>, b: seq<bool>, own: seq<Tag>, heads: seq<nat>, rests: seq<nat>,
                          rcs: seq<seq<Rec>>, terms: seq<nat>, keys: set<seq<uint8>>) {
    1 <= |heads| && |rests| == |heads| && |rcs| == |heads| && |terms| == |heads| && |own| == |b| &&
    forall g :: 0 <= g < |heads| ==> ChainAt(w, text, b, own, heads, rests, rcs, terms, keys, g)
  }

  /** The chain of hash g parses and holds exactly the keys of g, each once. */
  ghost predicate ChainAt(w: Widths, text: seq<uint8>, b: seq<bool>, own: seq<Tag>, heads: seq<nat>, rests: seq<nat>,
                          rcs: seq<seq<Rec>>, terms: seq<nat>, keys: set<seq<uint8>>, g: nat) {
    g < |heads| && g < |rests| && g < |rcs| && g < |terms| &&
    ChainOK(w, text, b, own, g, heads[g], rests[g], rcs[g], terms[g]) && KeysOK(Strings(rcs[g]), keys, |heads|, g)
  }

  /** b2 and own2 extend b and own, and differ from them only on bits tagged t. */
  ghost predicate Untouched(b: seq<bool>, own: seq<Tag>, b2: seq<bool>, own2: seq<Tag>, t: Tag) {
    |b| <= |b2| && |own| == |b| && |own2| == |b2| &&
    forall x :: 0 <= x < |b| && own[x] != t ==> b2[x] == b[x] && own2[x] == own[x]
  }

  /** b and b2 agree on [lo, hi). */
  ghost predicate Agree(b: seq<bool>, b2: seq<bool>, lo: nat, hi: nat) {
    hi <= |b| && hi <= |b2| && forall x :: lo <= x < hi ==> b2[x] == b[x]
  }

  /** The type bit and the length of a record read the same from agreeing bits. */
  lemma LengthAgree(w: Widths, b: seq<bool>, b2: seq<bool>, at: nat, hi: nat)
    requires LengthReadable(w, b, at) && Agree(b, b2, at, hi) && at + SwBits < hi
    requires IsShort(b, at) ==> at + SwBits + 1 + w.ssBits <= hi
    requires !IsShort(b, at) ==> at + SwBits + 1 + w.lsiBits + w.lslBits <= hi
    ensures LengthReadable(w, b2, at) && IsShort(b2, at) == IsShort(b, at)
    ensures GetLength(w, b2, at) == GetLength(w, b, at)
  {
    assert b2[at + SwBits] == b[at + SwBits];
    if IsShort(b, at) {
      GetIntSame(b, b2, at + SwBits + 1, w.ssBits);
    } else {
      GetIntSame(b, b2, at + SwBits + 1 + w.lsiBits, w.lslBits);
    }
  }

  /** A short record's characters read the same from agreeing bits. */
  lemma CharsAgree(w: Widths, b: seq<bool>, b2: seq<bool>, r: Rec, at: nat)
    requires at == r.at + SwBits + 1 + w.ssBits && Agree(b, b2, r.at, at + 8 * |r.content|)
    requires forall j :: 0 <= j < |r.content| ==> GetInt(b, at + 8 * j, 8) == r.content[j]
    ensures forall j :: 0 <= j < |r.content| ==> GetInt(b2, at + 8 * j, 8) == r.content[j]
  {
    forall j | 0 <= j < |r.content| ensures GetInt(b2, at + 8 * j, 8) == r.content[j] {
      GetIntSame(b, b2, at + 8 * j, 8);
    }
  }

  /** A data record's content reads the same from agreeing bits. */
  lemma ContentAgree(w: Widths, text: seq<uint8>, b: seq<bool>, b2: seq<bool>, r: Rec)
    requires ContentOK(w, text, b, r) && Agree(b, b2, r.at, r.at + Span(w, r))
    ensures ContentOK(w, text, b2, r)
  {
    if |r.content| <= w.ssLimit {
      CharsAgree(w, b, b2, r, r.at + SwBits + 1 + w.ssBits);
    } else {
      GetIntSame(b, b2, r.at + SwBits + 1, w.lsiBits);
    }
  }

  /** A record parses the same from agreeing bits. */
  lemma ParseAgree(w: Widths, text: seq<uint8>, b: seq<bool>, b2: seq<bool>, r: Rec, next: nat)
    requires RecParse(w, text, b, r, next) && Agree(b, b2, r.at, r.at + Span(w, r))
    ensures RecParse(w, text, b2, r, next)
  {
    LengthAgree(w, b, b2, r.at, r.at + Span(w, r));
    if r.link {
      GetIntSame(b, b2, r.at + SwBits + 1 + w.ssBits, 64);
    } else {
      GetIntSame(b, b2, r.at, SwBits);
      ContentAgree(w, text, b, b2, r);
    }
  }

  /** A record keeps parsing when only bits of another tag change. */
  lemma RecFrame(w: Widths, text: seq<uint8>, b: seq<bool>, own: seq<Tag>, b2: seq<bool>, own2: seq<Tag>,
                 t: Tag, g: nat, r: Rec, next: nat)
    requires RecOK(w, text, b, own, g, r, next) && Untouched(b, own, b2, own2, t) && t != Record(g)
    ensures RecOK(w, text, b2, own2, g, r, next)
  {
    var lo, hi := r.at, r.at + Span(w, r);
    forall x | lo <= x < hi ensures b2[x] == b[x] && own2[x] == own[x] {
      assert own[x] == Record(g);
    }
    assert Agree(b, b2, lo, hi);
    ParseAgree(w, text, b, b2, r, next);
  }

  /** A terminator stays when only bits of another tag change. */
  lemma TermFrame(w: Widths, b: seq<bool>, own: seq<Tag>, b2: seq<bool>, own2: seq<Tag>,
                  t: Tag, g: nat, term: nat, rest: nat)
    requires TermOK(w, b, own, g, term, rest) && Untouched(b, own, b2, own2, t) && t != Spare(g)
    ensures TermOK(w, b2, own2, g, term, rest)
  {
    forall x | term <= x < term + rest - 1 ensures b2[x] == b[x] && own2[x] == own[x] {
      assert own[x] == Spare(g);
    }
  }

  /** Chain g keeps parsing when only bits of another chain's spare room change. */
  lemma ChainFrame(w: Widths, text: seq<uint8>, b: seq<bool>, own: seq<Tag>, b2: seq<bool>, own2: seq<Tag>,
                   h: nat, g: nat, head: nat, rest: nat, rc: seq<Rec>, term: nat)
    requires ChainOK(w, text, b, own, g, head, rest, rc, term) && Untouched(b, own, b2, own2, Spare(h)) && g != h
    ensures ChainOK(w, text, b2, own2, g, head, rest, rc, term)
  {
    if head != 0 {
      TermFrame(w, b, own, b2, own2, Spare(h), g, term, rest);
      forall i | 0 <= i < |rc| ensures RecOK(w, text, b2, own2, g, rc[i], Visit(rc, term, i + 1)) {
        RecFrame(w, text, b, own, b2, own2, Spare(h), g, rc[i], Visit(rc, term, i + 1));
      }
    }
  }

  // Writing a record, as the tail of insert_string does.

  /** b2 has the length of b and differs from it only inside [lo, hi). */
  ghost predicate Frame(b: seq<bool>, b2: seq<bool>, lo: nat, hi: nat) {
    |b2| == |b| && forall x :: 0 <= x < |b| && !(lo <= x < hi) ==> b2[x] == b[x]
  }

  /** The 64 bits from lo are cleared. */
  ghost predicate ClearedAt(b: seq<bool>, lo: nat) {
    lo + 64 <= |b| && forall x :: lo <= x < lo + 64 ==> !b[x]
  }

  lemma FrameTrans(b: seq<bool>, b1: seq<bool>, b2: seq<bool>, lo1: nat, hi1: nat, lo2: nat, hi2: nat, lo: nat, hi: nat)
    requires Frame(b, b1, lo1, hi1) && Frame(b1, b2, lo2, hi2)
    requires lo <= lo1 && lo <= lo2 && hi1 <= hi && hi2 <= hi
    ensures Frame(b, b2, lo, hi)
  {
  }

  /** set_int(lo, 0, 64): the 64 bits from lo are cleared and no other bit changes. */
  lemma ClearStep(b: seq<bool>, b2: seq<bool>, lo: nat)
    requires lo + 64 <= |b| && b2 == SetInt(b, lo, 0, 64)
    ensures Frame(b, b2, lo, lo + 64) && ClearedAt(b2, lo)
  {
    SetIntFrame(b, lo, 0, 64);
    var f := BitsOf(0, 64);
    forall x | lo <= x < lo + 64 ensures !b2[x] {
      BitOf(0, 64, x - lo);
      assert b2[x] == f[x - lo];
    }
  }

  /** A byte written reads back. */
  lemma CharWritten(b: seq<bool>, at: nat, c: uint8)
    requires at + 8 <= |b|
    ensures GetInt(SetInt(b, at, c, 8), at, 8) == c
  {
    GetIntSetInt(b, at, c, 8);
    DivUnique(c, 0x100, 0, c);
  }

  /**
   * The characters T[p..p+m] written one byte at a time from bit at, as the
   * content loop of a short record does.
   */
  method WriteChars(b: seq<bool>, at: nat, T: seq<uint8>, p: nat, m: nat) returns (b2: seq<bool>)
    requires p + m <= |T| && at + 8 * m <= |b|
    ensures Frame(b, b2, at, at + 8 * m)
    ensures forall j :: 0 <= j < m ==> GetInt(b2, at + 8 * j, 8) == T[p + j]
  {
    b2 := b;
    var i := 0;
    while i < m
      invariant 0 <= i <= m && Frame(b, b2, at, at + 8 * i)
      invariant forall j :: 0 <= j < i ==> GetInt(b2, at + 8 * j, 8) == T[p + j]
    {
      var b3 := SetInt(b2, at + 8 * i, T[p + i], 8);
      CharStep(b, b2, b3, at, i, T, p);
      b2 := b3;
      i := i + 1;
    }
  }

  /** One step of the content loop keeps its invariant. */
  lemma CharStep(b: seq<bool>, b2: seq<bool>, b3: seq<bool>, at: nat, i: nat, T: seq<uint8>, p: nat)
    requires p + i < |T| && at + 8 * i + 8 <= |b2| && b3 == SetInt(b2, at + 8 * i, T[p + i], 8)
    requires Frame(b, b2, at, at + 8 * i)
    requires forall j :: 0 <= j < i ==> GetInt(b2, at + 8 * j, 8) == T[p + j]
    ensures Frame(b, b3, at, at + 8 * (i + 1))
    ensures forall j :: 0 <= j < i + 1 ==> GetInt(b3, at + 8 * j, 8) == T[p + j]
  {
    CharWritten(b2, at + 8 * i, T[p + i]);
    CharsKept(b2, b3, at, i, T, p);
    SetIntFrame(b2, at + 8 * i, T[p + i], 8);
  }

  /** Writing byte i keeps the bytes before it. */
  lemma CharsKept(b2: seq<bool>, b3: seq<bool>, at: nat, i: nat, T: seq<uint8>, p: nat)
    requires p + i < |T| && at + 8 * i + 8 <= |b2| && b3 == SetInt(b2, at + 8 * i, T[p + i], 8)
    requires forall j :: 0 <= j < i ==> GetInt(b2, at + 8 * j, 8) == T[p + j]
    ensures forall j :: 0 <= j < i ==> GetInt(b3, at + 8 * j, 8) == T[p + j]
  {
    forall j | 0 <= j < i ensures GetInt(b3, at + 8 * j, 8) == T[p + j] {
      GetIntAfterSetInt(b2, at + 8 * i, T[p + i], 8, at + 8 * j, 8);
    }
  }

  /** The first bits of a short record: set_length, the sentinel, the type bit 0. */
  function ShortHeader(w: Widths, b: seq<bool>, q: nat, m: nat, c: nat): (r: seq<bool>)
    requires m <= w.ssLimit && q + SwBits + 1 + w.ssBits <= |b|
    ensures |r| == |b|
  {
    SetInt(PutLength(w, b, q, m), q, c, SwBits)[q + SwBits := false]
  }

  /** The first bits of a long record: set_length, the sentinel, the type bit 1. */
  function LongStart(w: Widths, b: seq<bool>, q: nat, m: nat, c: nat): (r: seq<bool>)
    requires m > w.ssLimit && q + SwBits + 1 + w.lsiBits + w.lslBits <= |b|
    ensures |r| == |b|
  {
    SetInt(PutLength(w, b, q, m), q, c, SwBits)[q + SwBits := true]
  }

  /** A short header reads as a short record of length m with sentinel c, and touches only its own bits. */
  lemma ShortHeaderStep(w: Widths, b: seq<bool>, b3: seq<bool>, q: nat, m: nat, c: nat, at: nat)
    requires WidthsOK(w) && m <= w.ssLimit && at == q + SwBits + 1 && at + w.ssBits <= |b|
    requires b3 == ShortHeader(w, b, q, m, c)
    ensures LengthReadable(w, b3, q) && IsShort(b3, q) && GetLength(w, b3, q) == m
    ensures GetInt(b3, q, SwBits) == c % 0x100 && Frame(b, b3, q, at + w.ssBits)
  {
    var b1 := PutLength(w, b, q, m);
    ShortLengthRoundTrip(w, b, q, m, at);
    LengthFrame(w, b, q, m);
    var b2 := SetInt(b1, q, c, SwBits);
    GetIntAfterSetInt(b1, q, c, SwBits, at, w.ssBits);
    GetIntSetInt(b1, q, c, SwBits);
    SetIntFrame(b1, q, c, SwBits);
    GetIntSame(b2, b3, at, w.ssBits);
    GetIntSame(b2, b3, q, SwBits);
  }

  /** The start of a long header reads as a long record of length m with sentinel c. */
  lemma LongStartStep(w: Widths, b: seq<bool>, b3: seq<bool>, q: nat, m: nat, c: nat, at: nat)
    requires WidthsOK(w) && m > w.ssLimit && m < Pow2(w.lslBits)
    requires at == q + SwBits + 1 + w.lsiBits && at + w.lslBits <= |b|
    requires b3 == LongStart(w, b, q, m, c)
    ensures LengthReadable(w, b3, q) && !IsShort(b3, q) && GetInt(b3, at, w.lslBits) == m
    ensures GetInt(b3, q, SwBits) == c % 0x100 && Frame(b, b3, q, at + w.lslBits)
  {
    var b1 := PutLength(w, b, q, m);
    LongLengthRoundTrip(w, b, q, m, at);
    var b2 := SetInt(b1, q, c, SwBits);
    GetIntAfterSetInt(b1, q, c, SwBits, at, w.lslBits);
    GetIntSetInt(b1, q, c, SwBits);
    Pow2Byte();
    GetIntSame(b2, b3, at, w.lslBits);
    GetIntSame(b2, b3, q, SwBits);
    LongStartFrame(w, b, b3, q, m, c, at);
  }

  /** The start of a long header touches only the bits from q up to the end of its length field. */
  lemma LongStartFrame(w: Widths, b: seq<bool>, b3: seq<bool>, q: nat, m: nat, c: nat, at: nat)
    requires m > w.ssLimit && at == q + SwBits + 1 + w.lsiBits && at + w.lslBits <= |b|
    requires b3 == LongStart(w, b, q, m, c)
    ensures Frame(b, b3, q, at + w.lslBits)
  {
    var b1 := PutLength(w, b, q, m);
    LengthFrame(w, b, q, m);
    SetIntFrame(b1, q, c, SwBits);
    forall x | 0 <= x < |b| && !(q <= x < at + w.lslBits)
      ensures b3[x] == b[x]
    {
      assert !InLengthField(w, q, m, x);
    }
  }

  /** set_position on a long header: the position reads p, the length and sentinel stay. */
  lemma PositionStep(w: Widths, b3: seq<bool>, b4: seq<bool>, q: nat, m: nat, c: nat, p: nat, at: nat)
    requires p < Pow2(w.lsiBits) && at == q + SwBits + 1 + w.lsiBits && at + w.lslBits <= |b3|
    requires LengthReadable(w, b3, q) && !IsShort(b3, q) && GetInt(b3, at, w.lslBits) == m
    requires GetInt(b3, q, SwBits) == c % 0x100
    requires b4 == PutPosition(w, b3, q, p)
    ensures LengthReadable(w, b4, q) && !IsShort(b4, q) && GetLength(w, b4, q) == m
    ensures GetPosition(w, b4, q) == p && GetInt(b4, q, SwBits) == c % 0x100
    ensures Frame(b3, b4, q + SwBits + 1, at)
  {
    PositionRoundTrip(w, b3, q, p);
    DivUnique(p, Pow2(w.lsiBits), 0, p);
    GetIntSame(b3, b4, at, w.lslBits);
    GetIntSame(b3, b4, q, SwBits);
  }

  /** The short header and the characters survive the final 64 cleared bits. */
  lemma ShortRecordStays(w: Widths, T: seq<uint8>, b1: seq<bool>, b3: seq<bool>, b2: seq<bool>,
                         q: nat, p: nat, m: nat, c: nat, at: nat, next: nat)
    requires WidthsOK(w) && 2 <= m <= w.ssLimit && p + m <= |T| && c == T[p] as int + 1
    requires at == q + SwBits + 1 + w.ssBits && next == q + RecordSize(w, m) && next + 64 <= |b1|
    requires LengthReadable(w, b1, q) && IsShort(b1, q) && GetLength(w, b1, q) == m
    requires GetInt(b1, q, SwBits) == c % 0x100
    requires Frame(b1, b3, at, at + 8 * m) && Frame(b3, b2, next, next + 64)
    requires forall j :: 0 <= j < m ==> GetInt(b3, at + 8 * j, 8) == T[p + j]
    ensures RecParse(w, T, b2, Rec(q, false, T[p..p + m]), next)
  {
    assert Agree(b1, b2, q, at);
    LengthAgree(w, b1, b2, q, at);
    GetIntSame(b1, b2, q, SwBits);
    var r := Rec(q, false, T[p..p + m]);
    forall j | 0 <= j < m ensures GetInt(b2, at + 8 * j, 8) == r.content[j] {
      GetIntSame(b3, b2, at + 8 * j, 8);
    }
    assert ContentOK(w, T, b2, r);
  }

  /** The long header survives the final 64 cleared bits. */
  lemma LongRecordStays(w: Widths, T: seq<uint8>, b1: seq<bool>, b2: seq<bool>, q: nat, p: nat, m: nat, c: nat, next: nat)
    requires WidthsOK(w) && 2 <= m && m > w.ssLimit && p + m <= |T| && c == T[p] as int + 1
    requires next == q + RecordSize(w, m) && next + 64 <= |b1|
    requires LengthReadable(w, b1, q) && !IsShort(b1, q) && GetLength(w, b1, q) == m && GetPosition(w, b1, q) == p
    requires GetInt(b1, q, SwBits) == c % 0x100
    requires Frame(b1, b2, next, next + 64)
    ensures RecParse(w, T, b2, Rec(q, false, T[p..p + m]), next)
  {
    var hi := q + SwBits + 1 + w.lsiBits + w.lslBits;
    assert Agree(b1, b2, q, hi);
    LengthAgree(w, b1, b2, q, hi);
    GetIntSame(b1, b2, q, SwBits);
    GetIntSame(b1, b2, q + SwBits + 1, w.lsiBits);
  }

  /**
   * The record insert_string writes for T[p..p+m] at q, followed by 64
   * cleared bits: it parses as a data record whose walk continues right
   * after it, and no other bit changes.
   */
  method WriteRecord(w: Widths, b: seq<bool>, q: nat, T: seq<uint8>, p: nat, m: nat) returns (b2: seq<bool>, next: nat)
    requires WidthsOK(w) && 2 <= m && p + m <= |T| && |T| < Pow2(w.lsiBits)
    requires q + RecordSize(w, m) + 64 <= |b|
    ensures next == q + RecordSize(w, m)
    ensures Frame(b, b2, q, next + 64)
    ensures RecParse(w, T, b2, Rec(q, false, T[p..p + m]), next)
    ensures ClearedAt(b2, next)
  {
    if m <= w.ssLimit {
      b2, next := WriteShortRecord(w, b, q, T, p, m);
    } else {
      b2, next := WriteLongRecord(w, b, q, T, p, m);
    }
  }

  /** The short branch: length, sentinel, type bit 0, the characters, then 64 cleared bits. */
  method WriteShortRecord(w: Widths, b: seq<bool>, q: nat, T: seq<uint8>, p: nat, m: nat) returns (b2: seq<bool>, next: nat)
    requires WidthsOK(w) && 2 <= m <= w.ssLimit && p + m <= |T|
    requires q + RecordSize(w, m) + 64 <= |b|
    ensures next == q + RecordSize(w, m)
    ensures Frame(b, b2, q, next + 64)
    ensures RecParse(w, T, b2, Rec(q, false, T[p..p + m]), next)
    ensures ClearedAt(b2, next)
  {
    var b1 := PutLength(w, b, q, m);
    var c := T[p] as nat + 1;
    b1 := SetInt(b1, q, c, SwBits);
    b1 := b1[q + SwBits := false];
    ShortHeaderStep(w, b, b1, q, m, c, q + SwBits + 1);
    var at := q + SwBits + 1 + w.ssBits;
    var b3 := WriteChars(b1, at, T, p, m);
    next := q + SwBits + 1 + w.ssBits + m * 8 + w.nameBits;
    b2 := SetInt(b3, next, 0, 64);
    ClearStep(b3, b2, next);
    ShortRecordStays(w, T, b1, b3, b2, q, p, m, c, at, next);
    ghost var chars, top := at + 8 * m, next + 64;
    FrameTrans(b, b1, b3, q, at, at, chars, q, top);
    FrameTrans(b, b3, b2, q, top, next, top, q, top);
  }

  /** The long branch: length, sentinel, type bit 1, the position, then 64 cleared bits. */
  method WriteLongRecord(w: Widths, b: seq<bool>, q: nat, T: seq<uint8>, p: nat, m: nat) returns (b2: seq<bool>, next: nat)
    requires WidthsOK(w) && 2 <= m && m > w.ssLimit && p + m <= |T| && |T| < Pow2(w.lsiBits)
    requires q + RecordSize(w, m) + 64 <= |b|
    ensures next == q + RecordSize(w, m)
    ensures Frame(b, b2, q, next + 64)
    ensures RecParse(w, T, b2, Rec(q, false, T[p..p + m]), next)
    ensures ClearedAt(b2, next)
  {
    var b1 := PutLength(w, b, q, m);
    var c := T[p] as nat + 1;
    b1 := SetInt(b1, q, c, SwBits);
    b1 := b1[q + SwBits := true];
    var at := q + SwBits + 1 + w.lsiBits;
    Pow2Monotone(w.lslBits, w.lsiBits);
    LongStartStep(w, b, b1, q, m, c, at);
    var b3 := PutPosition(w, b1, q, p);
    PositionStep(w, b1, b3, q, m, c, p, at);
    next := q + SwBits + 1 + w.lsiBits + w.lsiBits + w.nameBits;
    b2 := SetInt(b3, next, 0, 64);
    ClearStep(b3, b2, next);
    LongRecordStays(w, T, b3, b2, q, p, m, c, next);
    ghost var header, fields, top := at + w.lslBits, q + SwBits + 1, next + 64;
    FrameTrans(b, b1, b3, q, header, fields, at, q, top);
    FrameTrans(b, b3, b2, q, top, next, top, q, top);
  }

  // Links, and walking a chain.

  /**
   * A link to p at idx, the record insert_string leaves at the end of a full
   * block: type bit 0, length 1 in the short length field, the 64-bit
   * pointer. The length is always written in the short layout; see
   * AsWrittenLinkReadsAsEnd for set_length(idx, 1) when SS_LIMIT is 0.
   */
  function PutLink(w: Widths, b: seq<bool>, idx: nat, p: nat): (r: seq<bool>)
    requires idx + LinkSize(w) <= |b|
    ensures |r| == |b|
  {
    PutPointer(w, SetInt(b[idx + SwBits := false], idx + SwBits + 1, 1, w.ssBits), idx, p)
  }

  /** A link reads as a link to p, and touches only the bits from its type bit to its end. */
  lemma LinkStep(w: Widths, b: seq<bool>, b2: seq<bool>, idx: nat, p: uint64, at: nat, hi: nat)
    requires 1 <= w.ssBits && hi == idx + LinkSize(w) && hi <= |b| && at == idx + SwBits + 1
    requires b2 == PutLink(w, b, idx, p)
    ensures LengthReadable(w, b2, idx) && IsShort(b2, idx) && GetLength(w, b2, idx) == 1
    ensures GetPointer(w, b2, idx) == p && Frame(b, b2, idx, hi)
  {
    var b0 := b[idx + SwBits := false];
    var b1 := SetInt(b0, at, 1, w.ssBits);
    GetIntSetInt(b0, at, 1, w.ssBits);
    Pow2Monotone(1, w.ssBits);
    assert Pow2(1) == 2;
    DivUnique(1, Pow2(w.ssBits), 0, 1);
    SetIntFrame(b0, at, 1, w.ssBits);
    PointerRoundTrip(w, b1, idx, p);
    GetIntSame(b1, b2, at, w.ssBits);
  }

  /** SS_LIMIT = 1 / 2 = 0 for n = 3, k = 4: LSI_BITS = 2 and SS_BITS = position_of_msb(0) = 1. */
  lemma LimitsOf3And4()
    ensures SsLimit(3, 4) == 0 && BitLength(3) == 2 && BitLength(0) == 1
  {
    assert FloorLog2(3) == 1 by {
      assert FloorLog2(1) == 0;
    }
    assert FloorLog2(4) == 2 by {
      assert FloorLog2(2) == 1;
    }
    assert Quotient(1, 2) == 0;
  }

  /**
   * As written, insert_string links a full block with set_length(pp, 1)
   * and set_pointer(pp, q2). When SS_LIMIT is 0 (n = 3, k = 4 gives the
   * widths below), set_length writes a long record, whose length field lies
   * inside the pointer field: after a link to bit 200 at bit 1 the record
   * reads as length 0, the end of the chain.
   */
  lemma AsWrittenLinkReadsAsEnd()
    ensures var w := Widths(0, 1, 2, 2, 2);
            var b := PutPointer(w, PutLength(w, Zeros(100), 1, 1), 1, 200);
            LengthReadable(w, b, 1) && !IsShort(b, 1) && GetLength(w, b, 1) == 0
  {
    var w := Widths(0, 1, 2, 2, 2);
    var b1 := PutLength(w, Zeros(100), 1, 1);
    var f := BitsOf(200, 64);
    var b := PutPointer(w, b1, 1, 200);
    assert b == Overwrite(b1, 11, f);
    assert b[9] == b1[9];
    ReadOverwrite(b1, 11, f, 1, 2);
    BitOf(200, 64, 1);
    BitOf(200, 64, 2);
    assert Pow2(1) == 2;
    assert Pow2(2) == 4;
    ValueOfCleared(f[1..3]);
  }

  /** A terminator's 64 cleared bits read as a short record of length 0. */
  lemma TermLength(w: Widths, b: seq<bool>, term: nat)
    requires WidthsOK(w) && term + 64 <= |b| && forall x :: term <= x < term + 64 ==> !b[x]
    ensures LengthReadable(w, b, term) && IsShort(b, term) && GetLength(w, b, term) == 0
  {
    var f := b[term + SwBits + 1..term + SwBits + 1 + w.ssBits];
    assert forall x :: 0 <= x < |f| ==> f[x] == b[term + SwBits + 1 + x];
    ValueOfCleared(f);
  }

  /** A record of a chain reads its length: 1 for a link, its content's length for a data record. */
  lemma RecLength(w: Widths, text: seq<uint8>, b: seq<bool>, r: Rec, next: nat)
    requires WidthsOK(w) && RecParse(w, text, b, r, next)
    ensures LengthReadable(w, b, r.at) && (!r.link ==> 2 <= |r.content|)
    ensures GetLength(w, b, r.at) == if r.link then 1 else |r.content|
  {
  }

  /** s is among the strings of rc exactly when some data record of rc holds it. */
  lemma {:induction false} StringsMember(rc: seq<Rec>, s: seq<uint8>)
    ensures s in Strings(rc) <==> exists i :: 0 <= i < |rc| && !rc[i].link && rc[i].content == s
  {
    if rc != [] {
      var init := rc[..|rc| - 1];
      StringsMember(init, s);
      if s in Strings(init) {
        var i :| 0 <= i < |init| && !init[i].link && init[i].content == s;
        assert rc[i] == init[i];
      }
      if exists i :: 0 <= i < |rc| && !rc[i].link && rc[i].content == s {
        var i :| 0 <= i < |rc| && !rc[i].link && rc[i].content == s;
        if i < |init| {
          assert init[i] == rc[i];
        }
      }
    }
  }

  /** Appending a record appends its content, if it has any, to the strings. */
  lemma StringsSnoc(rc: seq<Rec>, r: Rec)
    ensures Strings(rc + [r]) == Strings(rc) + if r.link then [] else [r.content]
  {
    assert (rc + [r])[..|rc|] == rc;
  }

  /**
   * The comparison loops of insert_string: the loop runs through all m
   * characters exactly when the record at q holds T[p..p+m]. The record's
   * kind follows m, as the source decides it by l <= SS_LIMIT.
   */
  method Compare(w: Widths, b: seq<bool>, q: nat, ghost r: Rec, T: seq<uint8>, m: nat, p: nat) returns (i: nat)
    requires WidthsOK(w) && q == r.at && |r.content| == m && p + m <= |T| && ContentOK(w, T, b, r)
    ensures i <= m && (i == m <==> T[p..p + m] == r.content)
  {
    if m <= w.ssLimit {
      i := CompareShort(w, b, q, r, T, m, p);
    } else {
      i := CompareLong(w, b, q, r, T, m, p);
    }
  }

  /** A short record's characters are read from the buffer. */
  method CompareShort(w: Widths, b: seq<bool>, q: nat, ghost r: Rec, T: seq<uint8>, m: nat, p: nat) returns (i: nat)
    requires q == r.at && |r.content| == m && m <= w.ssLimit && p + m <= |T| && ContentOK(w, T, b, r)
    ensures i <= m && (i == m <==> T[p..p + m] == r.content)
  {
    i := 0;
    while i < m && T[p + i] == GetInt(b, q + SwBits + 1 + w.ssBits + 8 * i, 8)
      invariant i <= m && forall j :: 0 <= j < i ==> T[p + j] == r.content[j]
    {
      i := i + 1;
    }
    if i < m {
      assert T[p..p + m][i] != r.content[i];
    }
  }

  /** A long record's characters are read from the text at its position. */
  method CompareLong(w: Widths, b: seq<bool>, q: nat, ghost r: Rec, T: seq<uint8>, m: nat, p: nat) returns (i: nat)
    requires q == r.at && |r.content| == m && m > w.ssLimit && p + m <= |T| && ContentOK(w, T, b, r)
    ensures i <= m && (i == m <==> T[p..p + m] == r.content)
  {
    i := 0;
    var p2 := GetPosition(w, b, q);
    while i < m && T[p + i] == T[p2 + i]
      invariant i <= m && forall j :: 0 <= j < i ==> T[p + j] == r.content[j]
    {
      assert r.content[i] == T[p2..p2 + m][i];
      i := i + 1;
    }
    if i < m {
      assert r.content[i] == T[p2..p2 + m][i];
      assert T[p..p + m][i] != r.content[i];
    }
  }

  /** Passing over record k, which does not hold s, keeps the scan's invariant. */
  lemma Passed(rc: seq<Rec>, k: nat, s: seq<uint8>)
    requires k < |rc| && (rc[k].link || rc[k].content != s)
    requires forall i :: 0 <= i < k && !rc[i].link ==> rc[i].content != s
    ensures forall i :: 0 <= i < k + 1 && !rc[i].link ==> rc[i].content != s
  {
  }

  /**
   * The scan loop of insert_string over chain h: links are followed,
   * records of another length skipped, records of length m compared, until
   * the terminator. found says whether T[p..p+m] is among the chain's
   * strings; steps counts the records passed over (the collisions), and when
   * nothing is found q is the terminator, or 0 for an empty chain.
   */
  method Walk(w: Widths, b: seq<bool>, ghost own: seq<Tag>, ghost h: nat, head: nat, ghost rest: nat,
              ghost rc: seq<Rec>, ghost term: nat, T: seq<uint8>, m: nat, p: nat)
    returns (found: bool, q: nat, steps: nat)
    requires WidthsOK(w) && ChainOK(w, T, b, own, h, head, rest, rc, term) && 2 <= m && p + m <= |T|
    ensures found <==> T[p..p + m] in Strings(rc)
    ensures found ==> steps < |rc| && rc[steps] == Rec(q, false, T[p..p + m])
    ensures !found ==> steps == |rc| && q == if head == 0 then 0 else term
  {
    ghost var s := T[p..p + m];
    q := head;
    steps := 0;
    found := false;
    while q != 0
      invariant steps <= |rc| && (head == 0 ==> q == 0) && (head != 0 ==> q == Visit(rc, term, steps))
      invariant forall i :: 0 <= i < steps && !rc[i].link ==> rc[i].content != s
      decreases |rc| - steps
    {
      if steps < |rc| {
        RecLength(w, T, b, rc[steps], Visit(rc, term, steps + 1));
      } else {
        TermLength(w, b, term);
      }
      var l := GetLength(w, b, q);
      if l == 0 {
        break;
      }
      if l == 1 {
        Passed(rc, steps, s);
        q := GetPointer(w, b, q);
        steps := steps + 1;
        continue;
      }
      if l != m {
        Passed(rc, steps, s);
        q := SkipString(w, b, q);
        steps := steps + 1;
        continue;
      }
      var i := Compare(w, b, q, rc[steps], T, m, p);
      if i == m {
        found := true;
        StringsMember(rc, s);
        return;
      }
      Passed(rc, steps, s);
      q := SkipString(w, b, q);
      steps := steps + 1;
    }
    StringsMember(rc, s);
  }

  // The transitions of insert_string on the chain parse.

  /** own with the bits of [lo, hi) retagged t. */
  function Claim(own: seq<Tag>, lo: nat, hi: nat, t: Tag): (r: seq<Tag>)
    ensures |r| == |own|
    ensures forall x :: 0 <= x < |own| ==> r[x] == if lo <= x < hi then t else own[x]
  {
    seq(|own|, x requires 0 <= x < |own| => if lo <= x < hi then t else own[x])
  }

  /** The tags after bit_resize adds extra bits for chain h: the first is unused, the rest is the new block. */
  function Grown(own: seq<Tag>, h: nat, extra: nat): (r: seq<Tag>)
    requires 1 <= extra
    ensures |r| == |own| + extra && r[|own|] == Unused
    ensures forall x :: 0 <= x < |own| ==> r[x] == own[x]
    ensures forall x :: |own| < x < |own| + extra ==> r[x] == Spare(h)
  {
    own + [Unused] + seq(extra - 1, _ => Spare(h))
  }

  /**
   * Chain h replaced by a new parse, every other chain untouched: the table
   * invariant holds again when the new chain parses, holds no string twice,
   * and holds exactly the keys of hash h, and the keys of other hashes stay.
   */
  lemma ReplaceChain(w: Widths, text: seq<uint8>, b: seq<bool>, own: seq<Tag>, heads: seq<nat>, rests: seq<nat>,
                     rcs: seq<seq<Rec>>, terms: seq<nat>, keys: set<seq<uint8>>,
                     b2: seq<bool>, own2: seq<Tag>, h: nat, head2: nat, rest2: nat, rc2: seq<Rec>, term2: nat,
                     keys2: set<seq<uint8>>)
    requires TableOK(w, text, b, own, heads, rests, rcs, terms, keys) && h < |heads|
    requires Untouched(b, own, b2, own2, Spare(h))
    requires ChainOK(w, text, b2, own2, h, head2, rest2, rc2, term2) && KeysOK(Strings(rc2), keys2, |heads|, h)
    requires forall s :: HashOf(s, |heads|) != h ==> (s in keys2 <==> s in keys)
    ensures TableOK(w, text, b2, own2, heads[h := head2], rests[h := rest2], rcs[h := rc2], terms[h := term2], keys2)
  {
    var heads2, rests2, rcs2, terms2 := heads[h := head2], rests[h := rest2], rcs[h := rc2], terms[h := term2];
    forall g | 0 <= g < |heads|
      ensures ChainAt(w, text, b2, own2, heads2, rests2, rcs2, terms2, keys2, g)
    {
      if g != h {
        assert ChainAt(w, text, b, own, heads, rests, rcs, terms, keys, g);
        ChainFrame(w, text, b, own, b2, own2, h, g, heads[g], rests[g], rcs[g], terms[g]);
      }
    }
  }

  /** b1 and own1 extend b and own by new bits, every old bit and tag kept. */
  ghost predicate Extends(b: seq<bool>, own: seq<Tag>, b1: seq<bool>, own1: seq<Tag>) {
    |b| <= |b1| && |own| == |b| && |own1| == |b1| && forall x :: 0 <= x < |b| ==> b1[x] == b[x] && own1[x] == own[x]
  }

  lemma UntouchedTrans(b: seq<bool>, own: seq<Tag>, b1: seq<bool>, own1: seq<Tag>, b2: seq<bool>, own2: seq<Tag>, t: Tag)
    requires Untouched(b, own, b1, own1, t) && Untouched(b1, own1, b2, own2, t)
    ensures Untouched(b, own, b2, own2, t)
  {
  }

  /**
   * Writing inside [wlo, whi) and claiming [clo, chi), both within spare room
   * [lo, hi) of chain h, leaves every bit of another tag alone.
   */
  lemma ClaimSpare(b: seq<bool>, own: seq<Tag>, b2: seq<bool>, own2: seq<Tag>, h: nat, lo: nat, hi: nat,
                   wlo: nat, whi: nat, clo: nat, chi: nat, t: Tag)
    requires |own| == |b| && Owned(own, lo, hi, Spare(h)) && Frame(b, b2, wlo, whi)
    requires lo <= wlo && whi <= hi && lo <= clo && chi <= hi && own2 == Claim(own, clo, chi, t)
    ensures Untouched(b, own, b2, own2, Spare(h))
  {
    forall x | 0 <= x < |b| && own[x] != Spare(h) ensures b2[x] == b[x] && own2[x] == own[x] {
      assert !(lo <= x < hi);
    }
  }

  /** The records of rc keep parsing once r is appended at the old terminator and other bits change. */
  lemma RecsKept(w: Widths, text: seq<uint8>, b: seq<bool>, own: seq<Tag>, b2: seq<bool>, own2: seq<Tag>,
                 h: nat, rc: seq<Rec>, term: nat, r: Rec, rc2: seq<Rec>, term2: nat)
    requires Untouched(b, own, b2, own2, Spare(h)) && r.at == term && rc2 == rc + [r]
    requires forall i :: 0 <= i < |rc| ==> RecOK(w, text, b, own, h, rc[i], Visit(rc, term, i + 1))
    ensures forall i :: 0 <= i < |rc| ==> RecOK(w, text, b2, own2, h, rc2[i], Visit(rc2, term2, i + 1))
  {
    forall i | 0 <= i < |rc| ensures RecOK(w, text, b2, own2, h, rc2[i], Visit(rc2, term2, i + 1)) {
      assert rc2[i] == rc[i];
      assert Visit(rc2, term2, i + 1) == Visit(rc, term, i + 1);
      RecFrame(w, text, b, own, b2, own2, Spare(h), h, rc[i], Visit(rc, term, i + 1));
    }
  }

  /** A chain with r appended parses when the old records, r and the new terminator do. */
  lemma ChainSnoc(w: Widths, text: seq<uint8>, b: seq<bool>, own: seq<Tag>, h: nat, head: nat, rest: nat,
                  rc: seq<Rec>, r: Rec, rc2: seq<Rec>, term: nat)
    requires rc2 == rc + [r] && head != 0 && head == Visit(rc, r.at, 0)
    requires forall i :: 0 <= i < |rc| ==> RecOK(w, text, b, own, h, rc2[i], Visit(rc2, term, i + 1))
    requires RecOK(w, text, b, own, h, r, term) && TermOK(w, b, own, h, term, rest)
    ensures ChainOK(w, text, b, own, h, head, rest, rc2, term)
  {
    assert rc2[|rc|] == r && Visit(rc2, term, |rc| + 1) == term;
    assert head == Visit(rc2, term, 0);
  }

  /** Chain h of a table: it parses, holds no string twice and holds exactly the keys of hash h. */
  lemma ChainKeys(w: Widths, text: seq<uint8>, b: seq<bool>, own: seq<Tag>, heads: seq<nat>, rests: seq<nat>,
                  rcs: seq<seq<Rec>>, terms: seq<nat>, keys: set<seq<uint8>>, h: nat)
    requires TableOK(w, text, b, own, heads, rests, rcs, terms, keys) && h < |heads|
    ensures ChainOK(w, text, b, own, h, heads[h], rests[h], rcs[h], terms[h]) && KeysOK(Strings(rcs[h]), keys, |heads|, h)
  {
    assert ChainAt(w, text, b, own, heads, rests, rcs, terms, keys, h);
  }

  /** The last block of a non-empty chain h lies in the buffer and has room for a link. */
  lemma TermRoom(w: Widths, text: seq<uint8>, b: seq<bool>, own: seq<Tag>, heads: seq<nat>, rests: seq<nat>,
                 rcs: seq<seq<Rec>>, terms: seq<nat>, keys: set<seq<uint8>>, h: nat)
    requires TableOK(w, text, b, own, heads, rests, rcs, terms, keys) && h < |heads| && heads[h] != 0
    ensures 1 <= terms[h] && LinkSize(w) < rests[h] && terms[h] + rests[h] - 1 <= |b|
  {
    assert ChainAt(w, text, b, own, heads, rests, rcs, terms, keys, h);
  }

  /** Adding a new key s of hash h to the strings of chain h keeps them distinct and exactly the keys of h. */
  lemma KeysAdd(ss: seq<seq<uint8>>, keys: set<seq<uint8>>, s: seq<uint8>, n: nat, h: nat)
    requires KeysOK(ss, keys, n, h) && HashOf(s, n) == h && s !in ss
    ensures KeysOK(ss + [s], keys + {s}, n, h)
    ensures forall t :: HashOf(t, n) != h ==> (t in keys + {s} <==> t in keys)
  {
  }

  /** bit_resize by N zero bits: the new block at q2, past one unused bit, is a terminator with N of room. */
  lemma NewBlock(w: Widths, b: seq<bool>, own: seq<Tag>, h: nat, b1: seq<bool>, own1: seq<Tag>, N: nat, q2: nat)
    requires |own| == |b| && LinkSize(w) < N && b1 == b + Zeros(N) && own1 == Grown(own, h, N) && q2 == |b| + 1
    ensures Extends(b, own, b1, own1) && TermOK(w, b1, own1, h, q2, N)
  {
  }

  /** The first record of chain h goes into a new block at q2, which head[h] now points at. */
  lemma HeadTransition(w: Widths, text: seq<uint8>, b: seq<bool>, own: seq<Tag>, heads: seq<nat>, rests: seq<nat>,
                       rcs: seq<seq<Rec>>, terms: seq<nat>, keys: set<seq<uint8>>,
                       h: nat, b1: seq<bool>, own1: seq<Tag>, N: nat, q2: nat)
    requires TableOK(w, text, b, own, heads, rests, rcs, terms, keys) && h < |heads| && heads[h] == 0
    requires Extends(b, own, b1, own1) && TermOK(w, b1, own1, h, q2, N)
    ensures TableOK(w, text, b1, own1, heads[h := q2], rests[h := N], rcs, terms[h := q2], keys)
  {
    ChainKeys(w, text, b, own, heads, rests, rcs, terms, keys, h);
    assert rcs[h := []] == rcs;
    assert Untouched(b, own, b1, own1, Spare(h));
    ReplaceChain(w, text, b, own, heads, rests, rcs, terms, keys, b1, own1, h, q2, N, [], q2, keys);
  }

  /**
   * A full block of chain h is linked to a new block: the terminator at
   * term becomes a link record, ending at hi, to q2, the new block's start.
   */
  lemma LinkChain(w: Widths, text: seq<uint8>, b: seq<bool>, own: seq<Tag>, h: nat, head: nat, rest: nat,
                  rc: seq<Rec>, term: nat, b1: seq<bool>, own1: seq<Tag>, b2: seq<bool>, own2: seq<Tag>,
                  rc2: seq<Rec>, hi: nat, N: nat, q2: nat)
    requires WidthsOK(w) && ChainOK(w, text, b, own, h, head, rest, rc, term) && head != 0
    requires Extends(b, own, b1, own1) && TermOK(w, b1, own1, h, q2, N) && q2 == |b| + 1
    requires hi == term + LinkSize(w) && hi <= |b2| && Frame(b1, b2, term, hi)
    requires LengthReadable(w, b2, term) && IsShort(b2, term) && GetLength(w, b2, term) == 1 && GetPointer(w, b2, term) == q2
    requires own2 == Claim(own1, term, hi, Record(h)) && rc2 == rc + [Rec(term, true, [])]
    ensures Untouched(b, own, b2, own2, Spare(h)) && ChainOK(w, text, b2, own2, h, head, N, rc2, q2)
  {
    var r := Rec(term, true, []);
    assert Owned(own1, term, term + rest - 1, Spare(h));
    ClaimSpare(b1, own1, b2, own2, h, term, term + rest - 1, term, hi, term, hi, Record(h));
    assert Untouched(b, own, b1, own1, Spare(h));
    UntouchedTrans(b, own, b1, own1, b2, own2, Spare(h));
    forall x | q2 <= x < q2 + N - 1 ensures b2[x] == b1[x] && own2[x] == own1[x] {
    }
    assert TermOK(w, b2, own2, h, q2, N);
    RecsKept(w, text, b, own, b2, own2, h, rc, term, r, rc2, q2);
    assert RecOK(w, text, b2, own2, h, r, q2);
    ChainSnoc(w, text, b2, own2, h, head, N, rc, r, rc2, q2);
  }

  /** Linking a full block keeps the table invariant; the link joins chain h and its strings stay. */
  lemma LinkTransition(w: Widths, text: seq<uint8>, b: seq<bool>, own: seq<Tag>, heads: seq<nat>, rests: seq<nat>,
                       rcs: seq<seq<Rec>>, terms: seq<nat>, keys: set<seq<uint8>>, h: nat,
                       b1: seq<bool>, own1: seq<Tag>, b2: seq<bool>, own2: seq<Tag>, term: nat, hi: nat, N: nat, q2: nat)
    requires WidthsOK(w) && TableOK(w, text, b, own, heads, rests, rcs, terms, keys) && h < |heads| && heads[h] != 0
    requires term == terms[h] && Extends(b, own, b1, own1) && TermOK(w, b1, own1, h, q2, N) && q2 == |b| + 1
    requires hi == term + LinkSize(w) && hi <= |b2| && Frame(b1, b2, term, hi)
    requires LengthReadable(w, b2, term) && IsShort(b2, term) && GetLength(w, b2, term) == 1 && GetPointer(w, b2, term) == q2
    requires own2 == Claim(own1, term, hi, Record(h))
    ensures TableOK(w, text, b2, own2, heads, rests[h := N], rcs[h := rcs[h] + [Rec(term, true, [])]], terms[h := q2], keys)
  {
    var r := Rec(term, true, []);
    var rc2 := rcs[h] + [r];
    ChainKeys(w, text, b, own, heads, rests, rcs, terms, keys, h);
    LinkChain(w, text, b, own, h, heads[h], rests[h], rcs[h], term, b1, own1, b2, own2, rc2, hi, N, q2);
    StringsSnoc(rcs[h], r);
    assert Strings(rc2) == Strings(rcs[h]);
    assert heads[h := heads[h]] == heads;
    ReplaceChain(w, text, b, own, heads, rests, rcs, terms, keys, b2, own2, h, heads[h], N, rc2, q2, keys);
  }

  /** The terminator after a record of size bits written at term, in a block with rest bits of room. */
  lemma AppendTerm(w: Widths, b: seq<bool>, own: seq<Tag>, own2: seq<Tag>, h: nat, term: nat, rest: nat,
                   b2: seq<bool>, size: nat, next: nat, rest2: nat)
    requires |own| == |b| == |b2| && size + LinkSize(w) < rest && Owned(own, term, term + rest - 1, Spare(h))
    requires 1 <= size && next == term + size && rest2 + size == rest && ClearedAt(b2, next)
    requires own2 == Claim(own, term, next, Record(h))
    ensures TermOK(w, b2, own2, h, next, rest2)
  {
    forall x | next <= x < next + rest2 - 1 ensures own2[x] == Spare(h) {
      assert own[x] == Spare(h);
    }
  }

  /**
   * The new record for s written at the terminator term of chain h, when
   * the block has room for it and a link: the chain gains the record, and
   * the terminator moves to next, just past it.
   */
  lemma AppendChain(w: Widths, text: seq<uint8>, b: seq<bool>, own: seq<Tag>, h: nat, head: nat, rest: nat,
                    rc: seq<Rec>, term: nat, s: seq<uint8>, b2: seq<bool>, own2: seq<Tag>, rc2: seq<Rec>,
                    size: nat, next: nat, rest2: nat)
    requires WidthsOK(w) && |own| == |b| && ChainOK(w, text, b, own, h, head, rest, rc, term) && head != 0
    requires size == RecordSize(w, |s|) && size + LinkSize(w) < rest && next == term + size && rest2 + size == rest
    requires Frame(b, b2, term, next + 64) && RecParse(w, text, b2, Rec(term, false, s), next) && ClearedAt(b2, next)
    requires own2 == Claim(own, term, next, Record(h)) && rc2 == rc + [Rec(term, false, s)]
    ensures Untouched(b, own, b2, own2, Spare(h)) && ChainOK(w, text, b2, own2, h, head, rest2, rc2, next)
  {
    var r := Rec(term, false, s);
    assert Owned(own, term, term + rest - 1, Spare(h));
    ClaimSpare(b, own, b2, own2, h, term, term + rest - 1, term, next + 64, term, next, Record(h));
    AppendTerm(w, b, own, own2, h, term, rest, b2, size, next, rest2);
    RecsKept(w, text, b, own, b2, own2, h, rc, term, r, rc2, next);
    assert RecOK(w, text, b2, own2, h, r, next);
    ChainSnoc(w, text, b2, own2, h, head, rest2, rc, r, rc2, next);
  }

  /** Appending a new string s of hash h at the terminator keeps the table invariant and adds s to the keys. */
  lemma AppendTransition(w: Widths, text: seq<uint8>, b: seq<bool>, own: seq<Tag>, heads: seq<nat>, rests: seq<nat>,
                         rcs: seq<seq<Rec>>, terms: seq<nat>, keys: set<seq<uint8>>, h: nat, s: seq<uint8>,
                         b2: seq<bool>, own2: seq<Tag>, term: nat, size: nat, next: nat, rest2: nat)
    requires WidthsOK(w) && TableOK(w, text, b, own, heads, rests, rcs, terms, keys) && h < |heads| && heads[h] != 0
    requires term == terms[h] && HashOf(s, |heads|) == h && s !in keys
    requires size == RecordSize(w, |s|) && size + LinkSize(w) < rests[h] && next == term + size && rest2 + size == rests[h]
    requires Frame(b, b2, term, next + 64) && RecParse(w, text, b2, Rec(term, false, s), next) && ClearedAt(b2, next)
    requires own2 == Claim(own, term, next, Record(h))
    ensures TableOK(w, text, b2, own2, heads, rests[h := rest2], rcs[h := rcs[h] + [Rec(term, false, s)]],
                    terms[h := next], keys + {s})
  {
    var r := Rec(term, false, s);
    var rc2 := rcs[h] + [r];
    ChainKeys(w, text, b, own, heads, rests, rcs, terms, keys, h);
    AppendChain(w, text, b, own, h, heads[h], rests[h], rcs[h], term, s, b2, own2, rc2, size, next, rest2);
    StringsSnoc(rcs[h], r);
    assert Strings(rc2) == Strings(rcs[h]) + [s];
    KeysAdd(Strings(rcs[h]), keys, s, |heads|, h);
    assert heads[h := heads[h]] == heads;
    ReplaceChain(w, text, b, own, heads, rests, rcs, terms, keys, b2, own2, h, heads[h], rest2, rc2, next, keys + {s});
  }

  // The table object.

  /** The record widths `HashTable(_, n, k)` computes are consistent, and a text of at most n symbols fits the index fields. */
  lemma LimitWidths(n: uint64, k: uint8)
    requires k != 1
    ensures WidthsOK(Widths(SsLimit(n, k), BitLength(SsLimit(n, k)), BitLength(n), BitLength(n), BitLength(n)))
    ensures n < Pow2(BitLength(n))
  {
    assert Pow2(6) == 64;
    BitLengthAtMost(SsLimit(n, k), 6);
    Pow2Word64();
    BitLengthAtMost(n, 64);
  }

  /** A table of htSize empty chains over an empty buffer is well formed. */
  lemma EmptyTableOK(w: Widths, text: seq<uint8>, htSize: nat)
    requires 1 <= htSize
    ensures TableOK(w, text, [], [], seq(htSize, _ => 0), seq(htSize, _ => 0), seq(htSize, _ => []), seq(htSize, _ => 0), {})
  {
    var z: seq<nat> := seq(htSize, _ => 0);
    var r: seq<seq<Rec>> := seq(htSize, _ => []);
    forall g | 0 <= g < htSize
      ensures ChainAt(w, text, [], [], z, z, r, z, {}, g)
    {
      assert Strings(r[g]) == [];
    }
  }

  /**
   * The HashTable of src/hashtable.cpp. text is the text T the strings come
   * from (insert_string is always called with the same T); the ghost fields
   * owner, recs, terms and keys are the parse of buf into chains and the
   * set of strings interned so far.
   */
  class HashTable {
    const htSize: nat
    const hbSize: nat
    const widths: Widths
    var buf: seq<bool>
    const head: array<nat>
    const rest: array<nat>
    var collisions: nat
    ghost const text: seq<uint8>
    ghost var owner: seq<Tag>
    ghost var recs: seq<seq<Rec>>
    ghost var terms: seq<nat>
    ghost var keys: set<seq<uint8>>

    /** Every chain parses and holds exactly the keys of its hash, each once; positions in text fit LSI_BITS. */
    ghost predicate Valid()
      reads this, head, rest
    {
      WidthsOK(widths) && hbSize == 512 * 8 && head.Length == htSize && rest.Length == htSize && head != rest &&
      |text| < Pow2(widths.lsiBits) && TableOK(widths, text, buf, owner, head[..], rest[..], recs, terms, keys)
    }

    /**
     * `HashTable(hash_table_size, n, k)` for a text T of at most n symbols over
     * an alphabet of k: no chains, an empty buffer, HBSIZE = 4096 bits, and the
     * widths of the record fields computed from n and k.
     */
    constructor (hashTableSize: uint64, n: uint64, k: uint8, ghost T: seq<uint8>)
      requires 1 <= hashTableSize && k != 1 && |T| <= n
      ensures Valid() && fresh(head) && fresh(rest) && text == T && keys == {}
      ensures htSize == hashTableSize && hbSize == 4096 && buf == [] && collisions == 0
      ensures forall g :: 0 <= g < htSize ==> head[g] == 0 && rest[g] == 0
      ensures widths == Widths(SsLimit(n, k), BitLength(SsLimit(n, k)), BitLength(n), BitLength(n), BitLength(n))
    {
      var lsiBits, ssLimit, ssBits := RecordLimits(n, k);
      LimitWidths(n, k);
      var w := Widths(ssLimit, ssBits, lsiBits, lsiBits, lsiBits);
      var h := new nat[hashTableSize](_ => 0);
      var r := new nat[hashTableSize](_ => 0);
      assert h[..] == seq(hashTableSize, _ => 0) && r[..] == seq(hashTableSize, _ => 0);
      EmptyTableOK(w, T, hashTableSize);
      htSize := hashTableSize;
      hbSize := 512 * 8;
      widths := w;
      head := h;
      rest := r;
      buf := [];
      collisions := 0;
      text := T;
      owner := [];
      recs := seq(hashTableSize, _ => []);
      terms := seq(hashTableSize, _ => 0);
      keys := {};
    }

    /** `set_length(idx, length)`. */
    method SetLength(idx: nat, length: nat)
      requires LengthWritable(widths, buf, idx, length)
      modifies this`buf
      ensures buf == PutLength(widths, old(buf), idx, length)
    {
      buf := PutLength(widths, buf, idx, length);
    }

    /** `set_pointer(idx, p)`. */
    method SetPointer(idx: nat, p: uint64)
      requires idx + LinkSize(widths) <= |buf|
      modifies this`buf
      ensures buf == PutPointer(widths, old(buf), idx, p)
    {
      buf := PutPointer(widths, buf, idx, p);
    }

    /** `set_position(idx, p)`. */
    method SetPosition(idx: nat, p: uint64)
      requires idx + SwBits + 1 + widths.lsiBits <= |buf|
      modifies this`buf
      ensures buf == PutPosition(widths, old(buf), idx, p)
    {
      buf := PutPosition(widths, buf, idx, p);
    }

    /** `set_name(idx, p)`. */
    method SetName(idx: nat, p: uint64)
      requires LengthReadable(widths, buf, idx) && NameOffset(widths, buf, idx) + widths.nameBits <= |buf|
      modifies this`buf
      ensures buf == PutName(widths, old(buf), idx, p)
    {
      buf := PutName(widths, buf, idx, p);
    }

    /**
     * `hash_function(T, m, p)`: Horner's rule with factor 101 in a 64-bit
     * accumulator, reduced modulo HTSIZE; each round's multiply and add wrap
     * at 2^64, combined here into one reduction.
     */
    method HashFunction(T: seq<uint8>, m: nat, p: nat) returns (h: nat)
      requires 1 <= htSize && p + m <= |T|
      ensures h == HashOf(T[p..p + m], htSize)
    {
      var x := 0;
      var i := 0;
      while i < m
        invariant i <= m && x == Weighted(T[p..p + i]) % WORD
      {
        HornerMod(Weighted(T[p..p + i]), T[p + i]);
        WeightedSnoc(T[p..p + i], T[p + i]);
        assert T[p..p + i + 1] == T[p..p + i] + [T[p + i]];
        x := (x * 101 + T[p + i]) % WORD;
        i := i + 1;
      }
      h := x % htSize;
    }

    /**
     * `insert_string(T, m, p)`: 0 when T[p..p+m] is already interned, and
     * nothing but the collision count changes; otherwise 1, and the string
     * joins the chain of its hash. The collision count grows by the records
     * walked past. Addresses stay below 2^64, so the buffer, grown by at most
     * a block and the record, must too.
     */
    method InsertString(T: seq<uint8>, m: nat, p: nat) returns (r: uint8)
      requires Valid() && T == text && 2 <= m && p + m <= |T|
      requires |buf| + hbSize + RecordSize(widths, m) < WORD
      modifies this, head, rest
      ensures Valid() && keys == old(keys) + {T[p..p + m]}
      ensures r == if T[p..p + m] in old(keys) then 0 else 1
      ensures r == 0 ==> buf == old(buf) && head[..] == old(head[..]) && rest[..] == old(rest[..]) && recs == old(recs)
      ensures r == 0 ==> old(collisions) <= collisions < old(collisions) + |old(recs[HashOf(T[p..p + m], htSize)])|
      ensures r == 1 ==> collisions == old(collisions) + |old(recs[HashOf(T[p..p + m], htSize)])|
      ensures r == 1 ==> Strings(recs[HashOf(T[p..p + m], htSize)]) ==
                         Strings(old(recs[HashOf(T[p..p + m], htSize)])) + [T[p..p + m]]
      ensures forall g :: 0 <= g < htSize && g != HashOf(T[p..p + m], htSize) ==>
        recs[g] == old(recs[g]) && head[g] == old(head[g]) && rest[g] == old(rest[g])
    {
      ghost var s := T[p..p + m];
      var h := HashFunction(T, m, p);
      ChainKeys(widths, text, buf, owner, head[..], rest[..], recs, terms, keys, h);
      var found, q, steps := Walk(widths, buf, owner, h, head[h], rest[h], recs[h], terms[h], T, m, p);
      collisions := collisions + steps;
      if found {
        return 0;
      }
      var size := RecordSize(widths, m);
      if size + LinkSize(widths) >= rest[h] {
        q := Grow(h, size, q);
      }
      Append(T, m, p, h, q, size);
      r := 1;
    }

    /**
     * The resize of insert_string: bit_resize adds a block of HBSIZE bits and
     * the record's size, and the new block at bufsize + 1 becomes the head of
     * an empty chain, or the target of a link written over the terminator q.
     */
    method Grow(h: nat, size: nat, q: nat) returns (q2: nat)
      requires Valid() && h < htSize && 1 <= size && q == (if head[h] == 0 then 0 else terms[h])
      requires |buf| + hbSize + size < WORD
      modifies this, head, rest
      ensures Valid() && keys == old(keys) && collisions == old(collisions)
      ensures head[h] != 0 && q2 == terms[h] && rest[h] == hbSize + size
      ensures Strings(recs[h]) == Strings(old(recs[h]))
      ensures forall g :: 0 <= g < htSize && g != h ==>
        recs[g] == old(recs[g]) && head[g] == old(head[g]) && rest[g] == old(rest[g])
    {
      var bufsize: nat := |buf|;
      q2 := bufsize + 1;
      var N: nat := hbSize + size;
      var b1 := buf + Zeros(N);
      ghost var own1 := Grown(owner, h, N);
      NewBlock(widths, buf, owner, h, b1, own1, N, q2);
      if head[h] != 0 {
        TermRoom(widths, text, buf, owner, head[..], rest[..], recs, terms, keys, h);
      }
      if q == 0 {
        GrowHead(h, b1, own1, N, q2);
      } else {
        GrowLink(h, b1, own1, N, q2, q);
      }
    }

    /** Grow for an empty chain: head[h] points at the new block. */
    method GrowHead(h: nat, b1: seq<bool>, ghost own1: seq<Tag>, N: nat, q2: nat)
      requires Valid() && h < htSize && head[h] == 0
      requires Extends(buf, owner, b1, own1) && TermOK(widths, b1, own1, h, q2, N)
      modifies this, head, rest
      ensures Valid() && keys == old(keys) && collisions == old(collisions)
      ensures head[h] == q2 && q2 == terms[h] && rest[h] == N && recs == old(recs)
      ensures forall g :: 0 <= g < htSize && g != h ==> head[g] == old(head[g]) && rest[g] == old(rest[g])
    {
      ghost var heads0, rests0 := head[..], rest[..];
      HeadTransition(widths, text, buf, owner, heads0, rests0, recs, terms, keys, h, b1, own1, N, q2);
      rest[h] := N;
      head[h] := q2;
      assert rest[..] == rests0[h := N] && head[..] == heads0[h := q2];
      buf, owner, terms := b1, own1, terms[h := q2];
    }

    /** Grow for a chain whose last block is full: its terminator at q becomes a link to the new block. */
    method GrowLink(h: nat, b1: seq<bool>, ghost own1: seq<Tag>, N: nat, q2: uint64, q: nat)
      requires Valid() && h < htSize && head[h] != 0 && q == terms[h] && q2 == |buf| + 1
      requires Extends(buf, owner, b1, own1) && TermOK(widths, b1, own1, h, q2, N)
      modifies this, rest
      ensures Valid() && keys == old(keys) && collisions == old(collisions)
      ensures q2 == terms[h] && rest[h] == N
      ensures recs == old(recs)[h := old(recs[h]) + [Rec(q, true, [])]] && Strings(recs[h]) == Strings(old(recs[h]))
      ensures forall g :: 0 <= g < htSize && g != h ==> rest[g] == old(rest[g])
    {
      ghost var rests0 := rest[..];
      ghost var hi := q + LinkSize(widths);
      TermRoom(widths, text, buf, owner, head[..], rest[..], recs, terms, keys, h);
      var b2 := PutLink(widths, b1, q, q2);
      LinkStep(widths, b1, b2, q, q2, q + SwBits + 1, hi);
      ghost var own2 := Claim(own1, q, hi, Record(h));
      LinkTransition(widths, text, buf, owner, head[..], rests0, recs, terms, keys, h, b1, own1, b2, own2, q, hi, N, q2);
      StringsSnoc(recs[h], Rec(q, true, []));
      rest[h] := N;
      assert rest[..] == rests0[h := N];
      buf, owner, recs, terms := b2, own2, recs[h := recs[h] + [Rec(q, true, [])]], terms[h := q2];
    }

    /**
     * The record for T[p..p+m] written at the terminator q of chain h, which
     * has room for it and a link; rest[h] shrinks by its size.
     */
    method Append(T: seq<uint8>, m: nat, p: nat, h: nat, q: nat, size: nat)
      requires Valid() && T == text && 2 <= m && p + m <= |T| && h == HashOf(T[p..p + m], htSize)
      requires T[p..p + m] !in keys && head[h] != 0 && q == terms[h]
      requires size == RecordSize(widths, m) && size + LinkSize(widths) < rest[h]
      modifies this, rest
      ensures Valid() && keys == old(keys) + {T[p..p + m]} && collisions == old(collisions)
      ensures recs == old(recs)[h := old(recs[h]) + [Rec(q, false, T[p..p + m])]]
      ensures rest[h] + size == old(rest[h]) && forall g :: 0 <= g < htSize && g != h ==> rest[g] == old(rest[g])
    {
      ghost var s := T[p..p + m];
      ghost var rests0 := rest[..];
      TermRoom(widths, text, buf, owner, head[..], rests0, recs, terms, keys, h);
      var b2, next := WriteRecord(widths, buf, q, T, p, m);
      ghost var own2 := Claim(owner, q, next, Record(h));
      var rest2: nat := rest[h] - size;
      AppendTransition(widths, text, buf, owner, head[..], rests0, recs, terms, keys, h, s, b2, own2, q, size, next, rest2);
      rest[h] := rest2;
      assert rest[..] == rests0[h := rest2];
      buf, owner, recs, terms, keys := b2, own2, recs[h := recs[h] + [Rec(q, false, s)]], terms[h := next], keys + {s};
    }
  }
}
