/** The ATASCII character set: one glyph table shared by all codec objects, and the translation both ways. */
module Atascii {

  type Byte = b: int | 0 <= b < 0x100
  type QChar = c: int | 0 <= c < 0x10000
  type Mapping = map<Byte, QChar>

  /** `OutOfRange` is what the table lookup throws, `UnknownMapping` what the search throws. */
  datatype Result<T> = Ok(value: T) | OutOfRange | UnknownMapping

  // ---------- The two tables ----------

  function BaseGlyph(b: Byte): QChar {
    match b
    case 0x00 => 0x2665
    case 0x01 => 0x251C
    case 0x02 => 0x0020
    case 0x03 => 0x2518
    case 0x04 => 0x2524
    case 0x05 => 0x2510
    case 0x06 => 0x2571
    case 0x07 => 0x2572
    case 0x08 => 0x25E2
    case 0x09 => 0x2597
    case 0x0A => 0x25E3
    case 0x0B => 0x259D
    case 0x0C => 0x2598
    case 0x0D => 0x0020
    case 0x0E => 0x2582
    case 0x0F => 0x2596
    case 0x10 => 0x2663
    case 0x11 => 0x250C
    case 0x12 => 0x2500
    case 0x13 => 0x253C
    case 0x14 => 0x25CF
    case 0x15 => 0x2584
    case 0x16 => 0x258E
    case 0x17 => 0x252C
    case 0x18 => 0x2534
    case 0x19 => 0x258C
    case 0x1A => 0x2514
    case 0x1C => 0x2191
    case 0x1D => 0x2193
    case 0x1E => 0x2190
    case 0x1F => 0x2192
    case 0x60 => 0x2666
    case 0x7B => 0x2660
    case 0x7D => 0x21B0
    case 0x7E => 0x25C0
    case 0x7F => 0x25B6
    case _ => b
  }

  function InternationalGlyph(b: Byte): QChar {
    match b
    case 0x00 => 0x00E1
    case 0x01 => 0x00F9
    case 0x02 => 0x00D1
    case 0x03 => 0x00C9
    case 0x04 => 0x00E7
    case 0x05 => 0x00F4
    case 0x06 => 0x00F2
    case 0x07 => 0x00EC
    case 0x08 => 0x00A3
    case 0x09 => 0x00EF
    case 0x0A => 0x00FC
    case 0x0B => 0x00E4
    case 0x0C => 0x00D6
    case 0x0D => 0x00FA
    case 0x0E => 0x00F3
    case 0x0F => 0x00F6
    case 0x10 => 0x00DC
    case 0x11 => 0x00E2
    case 0x12 => 0x00FB
    case 0x13 => 0x00EE
    case 0x14 => 0x00E9
    case 0x15 => 0x00E8
    case 0x16 => 0x00F1
    case 0x17 => 0x00EA
    case 0x18 => 0x0227
    case 0x19 => 0x00E0
    case 0x1A => 0x0226
    case 0x1C => 0x2191
    case 0x1D => 0x2193
    case 0x1E => 0x2190
    case 0x1F => 0x2192
    case 0x60 => 0x0130
    case 0x7B => 0x00C4
    case _ => BaseGlyph(b)
  }

  function BaseTable(): Mapping {
    map b: Byte | 0 <= b < 0x80 :: BaseGlyph(b)
  }

  function InternationalTable(): Mapping {
    map b: Byte | 0 <= b < 0x80 :: InternationalGlyph(b)
  }

  // ---------- What replacing entry after entry amounts to ----------

  /** The base table with the entries below k replaced. */
  function PartlyReplaced(k: nat): Mapping {
    map b: Byte | 0 <= b < 0x80 :: if b < k then InternationalGlyph(b) else BaseGlyph(b)
  }

  /** In the series t of tables, table k + 1 is table k with entry k replaced. */
  ghost predicate Step(t: seq<Mapping>, k: nat)
    requires k < 0x80 && k + 1 < |t|
  {
    t[k][k := InternationalGlyph(k)] == t[k + 1]
  }

  ghost predicate Steps(t: seq<Mapping>) {
    && |t| == 0x81
    && (forall k: nat | k < 0x80 :: Step(t, k))
    && t[0x1B] == t[0x1C] && t[0x20] == t[0x60] && t[0x61] == t[0x7B] && t[0x7C] == t[0x80]
  }

  lemma ReplaceStep(b: Byte)
    requires b < 0x80
    ensures PartlyReplaced(b)[b := InternationalGlyph(b)] == PartlyReplaced(b + 1)
  {
  }

  lemma NoChange(lo: nat, hi: nat)
    requires lo <= hi <= 0x80 && forall b: Byte | lo <= b < hi :: InternationalGlyph(b) == BaseGlyph(b)
    ensures PartlyReplaced(lo) == PartlyReplaced(hi)
  {
  }

  ghost function Series(): seq<Mapping> {
    seq(0x81, k requires 0 <= k => PartlyReplaced(k))
  }

  lemma SeriesSteps()
    ensures Steps(Series()) && Series()[0x00] == BaseTable() && Series()[0x80] == InternationalTable()
  {
    NoChange(0x1B, 0x1C);
    NoChange(0x20, 0x60);
    NoChange(0x61, 0x7B);
    NoChange(0x7C, 0x80);
    forall k: nat | k < 0x80 ensures Step(Series(), k) {
      ReplaceStep(k);
    }
  }

  lemma EntriesFrom00(t: seq<Mapping>)
    requires Steps(t)
    ensures t[0x00][0x00 := 0x00E1][0x01 := 0x00F9][0x02 := 0x00D1][0x03 := 0x00C9] == t[0x04]
  {
    assert Step(t, 0x00) && Step(t, 0x01) && Step(t, 0x02) && Step(t, 0x03);
  }

  lemma EntriesFrom04(t: seq<Mapping>)
    requires Steps(t)
    ensures t[0x04][0x04 := 0x00E7][0x05 := 0x00F4][0x06 := 0x00F2][0x07 := 0x00EC] == t[0x08]
  {
    assert Step(t, 0x04) && Step(t, 0x05) && Step(t, 0x06) && Step(t, 0x07);
  }

  lemma EntriesFrom08(t: seq<Mapping>)
    requires Steps(t)
    ensures t[0x08][0x08 := 0x00A3][0x09 := 0x00EF][0x0A := 0x00FC][0x0B := 0x00E4] == t[0x0C]
  {
    assert Step(t, 0x08) && Step(t, 0x09) && Step(t, 0x0A) && Step(t, 0x0B);
  }

  lemma EntriesFrom0C(t: seq<Mapping>)
    requires Steps(t)
    ensures t[0x0C][0x0C := 0x00D6][0x0D := 0x00FA][0x0E := 0x00F3][0x0F := 0x00F6] == t[0x10]
  {
    assert Step(t, 0x0C) && Step(t, 0x0D) && Step(t, 0x0E) && Step(t, 0x0F);
  }

  lemma EntriesFrom10(t: seq<Mapping>)
    requires Steps(t)
    ensures t[0x10][0x10 := 0x00DC][0x11 := 0x00E2][0x12 := 0x00FB][0x13 := 0x00EE] == t[0x14]
  {
    assert Step(t, 0x10) && Step(t, 0x11) && Step(t, 0x12) && Step(t, 0x13);
  }

  lemma EntriesFrom14(t: seq<Mapping>)
    requires Steps(t)
    ensures t[0x14][0x14 := 0x00E9][0x15 := 0x00E8][0x16 := 0x00F1][0x17 := 0x00EA] == t[0x18]
  {
    assert Step(t, 0x14) && Step(t, 0x15) && Step(t, 0x16) && Step(t, 0x17);
  }

  lemma EntriesFrom18(t: seq<Mapping>)
    requires Steps(t)
    ensures t[0x18][0x18 := 0x0227][0x19 := 0x00E0][0x1A := 0x0226] == t[0x1B]
  {
    assert Step(t, 0x18) && Step(t, 0x19) && Step(t, 0x1A);
  }

  lemma EntriesFrom1C(t: seq<Mapping>)
    requires Steps(t)
    ensures t[0x1C][0x1C := 0x2191][0x1D := 0x2193][0x1E := 0x2190][0x1F := 0x2192] == t[0x20]
  {
    assert Step(t, 0x1C) && Step(t, 0x1D) && Step(t, 0x1E) && Step(t, 0x1F);
  }

  lemma EntriesFrom60(t: seq<Mapping>)
    requires Steps(t)
    ensures t[0x20][0x60 := 0x0130][0x7B := 0x00C4] == t[0x80]
  {
    assert Step(t, 0x60) && Step(t, 0x7B);
  }

  // ---------- Translation ----------

  function Decoded(t: Mapping, b: Byte): Result<QChar> {
    if b in t then Ok(t[b]) else OutOfRange
  }

  /** The search for a glyph in the order of the bytes, from byte `from` on. */
  function EncodedFrom(t: Mapping, c: QChar, from: int): Result<Byte>
    requires 0 <= from <= 0x100
    decreases 0x100 - from
  {
    if from == 0x100 then UnknownMapping
    else if from in t && t[from] == c then Ok(from)
    else EncodedFrom(t, c, from + 1)
  }

  function Encoded(t: Mapping, c: QChar): Result<Byte> {
    EncodedFrom(t, c, 0)
  }

  class GlyphTable {
    var mapping: Mapping

    constructor ()
      ensures mapping == map[]
    {
      mapping := map[];
    }
  }

  /** A codec object. It owns no table: every object uses the one shared table, which each constructor rewrites. */
  class Codec {
    const shared: GlyphTable

    constructor Atascii(shared: GlyphTable)
      modifies shared
      ensures this.shared == shared && shared.mapping == BaseTable()
      ensures shared.mapping == TableAfter(old(shared.mapping), [Base])
    {
      this.shared := shared;
      new;
      shared.mapping := BaseTable();
      LastConstructorDecides(old(shared.mapping), [Base]);
    }

    /** The base constructor runs first; then entry after entry is replaced. */
    constructor AtasciiInternational(shared: GlyphTable)
      modifies shared
      ensures this.shared == shared && shared.mapping == InternationalTable()
      ensures shared.mapping == TableAfter(old(shared.mapping), [International])
    {
      this.shared := shared;
      new;
      shared.mapping := BaseTable();
      ghost var t := Series();
      SeriesSteps();
      EntriesFrom00(t);
      shared.mapping := shared.mapping[0x00 := 0x00E1];
      shared.mapping := shared.mapping[0x01 := 0x00F9];
      shared.mapping := shared.mapping[0x02 := 0x00D1];
      shared.mapping := shared.mapping[0x03 := 0x00C9];
      EntriesFrom04(t);
      shared.mapping := shared.mapping[0x04 := 0x00E7];
      shared.mapping := shared.mapping[0x05 := 0x00F4];
      shared.mapping := shared.mapping[0x06 := 0x00F2];
      shared.mapping := shared.mapping[0x07 := 0x00EC];
      EntriesFrom08(t);
      shared.mapping := shared.mapping[0x08 := 0x00A3];
      shared.mapping := shared.mapping[0x09 := 0x00EF];
      shared.mapping := shared.mapping[0x0A := 0x00FC];
      shared.mapping := shared.mapping[0x0B := 0x00E4];
      EntriesFrom0C(t);
      shared.mapping := shared.mapping[0x0C := 0x00D6];
      shared.mapping := shared.mapping[0x0D := 0x00FA];
      shared.mapping := shared.mapping[0x0E := 0x00F3];
      shared.mapping := shared.mapping[0x0F := 0x00F6];
      EntriesFrom10(t);
      shared.mapping := shared.mapping[0x10 := 0x00DC];
      shared.mapping := shared.mapping[0x11 := 0x00E2];
      shared.mapping := shared.mapping[0x12 := 0x00FB];
      shared.mapping := shared.mapping[0x13 := 0x00EE];
      EntriesFrom14(t);
      shared.mapping := shared.mapping[0x14 := 0x00E9];
      shared.mapping := shared.mapping[0x15 := 0x00E8];
      shared.mapping := shared.mapping[0x16 := 0x00F1];
      shared.mapping := shared.mapping[0x17 := 0x00EA];
      EntriesFrom18(t);
      shared.mapping := shared.mapping[0x18 := 0x0227];
      shared.mapping := shared.mapping[0x19 := 0x00E0];
      shared.mapping := shared.mapping[0x1A := 0x0226];
      EntriesFrom1C(t);
      shared.mapping := shared.mapping[0x1C := 0x2191];
      shared.mapping := shared.mapping[0x1D := 0x2193];
      shared.mapping := shared.mapping[0x1E := 0x2190];
      shared.mapping := shared.mapping[0x1F := 0x2192];
      EntriesFrom60(t);
      shared.mapping := shared.mapping[0x60 := 0x0130];
      shared.mapping := shared.mapping[0x7B := 0x00C4];
      LastConstructorDecides(old(shared.mapping), [International]);
    }

    method Decode(b: Byte) returns (r: Result<QChar>)
      ensures r == Decoded(shared.mapping, b)
    {
      r := if b in shared.mapping then Ok(shared.mapping[b]) else OutOfRange;
    }

    method Encode(c: QChar) returns (r: Result<Byte>)
      ensures r == Encoded(shared.mapping, c)
    {
      for b := 0 to 0x100
        invariant Encoded(shared.mapping, c) == EncodedFrom(shared.mapping, c, b)
      {
        if b in shared.mapping && shared.mapping[b] == c {
          return Ok(b);
        }
      }
      return UnknownMapping;
    }
  }

  /** The byte that a glyph of the base table is encoded to. */
  function BaseByte(c: QChar): int {
    match c
    case 0x2665 => 0x00
    case 0x251C => 0x01
    case 0x2518 => 0x03
    case 0x2524 => 0x04
    case 0x2510 => 0x05
    case 0x2571 => 0x06
    case 0x2572 => 0x07
    case 0x25E2 => 0x08
    case 0x2597 => 0x09
    case 0x25E3 => 0x0A
    case 0x259D => 0x0B
    case 0x2598 => 0x0C
    case 0x2582 => 0x0E
    case 0x2596 => 0x0F
    case 0x2663 => 0x10
    case 0x250C => 0x11
    case 0x2500 => 0x12
    case 0x253C => 0x13
    case 0x25CF => 0x14
    case 0x2584 => 0x15
    case 0x258E => 0x16
    case 0x252C => 0x17
    case 0x2534 => 0x18
    case 0x258C => 0x19
    case 0x2514 => 0x1A
    case 0x2191 => 0x1C
    case 0x2193 => 0x1D
    case 0x2190 => 0x1E
    case 0x2192 => 0x1F
    case 0x2666 => 0x60
    case 0x2660 => 0x7B
    case 0x21B0 => 0x7D
    case 0x25C0 => 0x7E
    case 0x25B6 => 0x7F
    case 0x0020 => 0x02
    case _ => c
  }

  /** The byte of a glyph of the international table. */
  function InternationalByte(c: QChar): int {
    match c
    case 0x00E1 => 0x00
    case 0x00F9 => 0x01
    case 0x00D1 => 0x02
    case 0x00C9 => 0x03
    case 0x00E7 => 0x04
    case 0x00F4 => 0x05
    case 0x00F2 => 0x06
    case 0x00EC => 0x07
    case 0x00A3 => 0x08
    case 0x00EF => 0x09
    case 0x00FC => 0x0A
    case 0x00E4 => 0x0B
    case 0x00D6 => 0x0C
    case 0x00FA => 0x0D
    case 0x00F3 => 0x0E
    case 0x00F6 => 0x0F
    case 0x00DC => 0x10
    case 0x00E2 => 0x11
    case 0x00FB => 0x12
    case 0x00EE => 0x13
    case 0x00E9 => 0x14
    case 0x00E8 => 0x15
    case 0x00F1 => 0x16
    case 0x00EA => 0x17
    case 0x0227 => 0x18
    case 0x00E0 => 0x19
    case 0x0226 => 0x1A
    case 0x2191 => 0x1C
    case 0x2193 => 0x1D
    case 0x2190 => 0x1E
    case 0x2192 => 0x1F
    case 0x0130 => 0x60
    case 0x00C4 => 0x7B
    case 0x21B0 => 0x7D
    case 0x25C0 => 0x7E
    case 0x25B6 => 0x7F
    case _ => c
  }

  lemma BaseByteInverse(b: Byte)
    requires b < 0x80
    ensures BaseByte(BaseGlyph(b)) == if b == 0x0D || b == 0x20 then 0x02 else b
  {
  }

  lemma InternationalByteInverse(b: Byte)
    requires b < 0x80
    ensures InternationalByte(InternationalGlyph(b)) == b
  {
  }

  // ---------- What the search finds ----------

  lemma {:induction false} EncodedFromIsLeast(t: Mapping, c: QChar, from: int)
    requires 0 <= from <= 0x100
    ensures match EncodedFrom(t, c, from)
            case Ok(b) => from <= b && b in t && t[b] == c && forall x: Byte | from <= x < b :: !(x in t && t[x] == c)
            case UnknownMapping => forall x: Byte | from <= x :: !(x in t && t[x] == c)
            case OutOfRange => false
    decreases 0x100 - from
  {
    if from < 0x100 && !(from in t && t[from] == c) {
      EncodedFromIsLeast(t, c, from + 1);
    }
  }

  /** Encoding yields the least byte with that glyph, and fails exactly when no byte has it. */
  lemma EncodedIsLeast(t: Mapping, c: QChar, b: Byte)
    ensures Encoded(t, c) == Ok(b) <==> b in t && t[b] == c && forall x: Byte | x < b :: !(x in t && t[x] == c)
    ensures Encoded(t, c) == UnknownMapping <==> c !in t.Values
  {
    EncodedFromIsLeast(t, c, 0);
  }

  lemma BaseRoundTrip(b: Byte)
    requires b < 0x80
    ensures Encoded(BaseTable(), BaseGlyph(b)) == Ok(Canonical(b))
  {
    var c := Canonical(b);
    BaseByteInverse(b);
    forall x: Byte | x < c ensures !(x in BaseTable() && BaseTable()[x] == BaseGlyph(b)) {
      if x < 0x80 {
        BaseByteInverse(x);
      }
    }
    EncodedIsLeast(BaseTable(), BaseGlyph(b), c);
  }

  lemma InternationalRoundTrip(b: Byte)
    requires b < 0x80
    ensures Encoded(InternationalTable(), InternationalGlyph(b)) == Ok(b)
  {
    InternationalByteInverse(b);
    forall x: Byte | x < b ensures !(x in InternationalTable() && InternationalTable()[x] == InternationalGlyph(b)) {
      InternationalByteInverse(x);
    }
    EncodedIsLeast(InternationalTable(), InternationalGlyph(b), b);
  }

  // ---------- Strings ----------

  function DecodedText(t: Mapping, s: seq<Byte>): Result<seq<QChar>> {
    if s == [] then Ok([])
    else
      match Decoded(t, s[0])
      case Ok(c) => (match DecodedText(t, s[1..])
                     case Ok(cs) => Ok([c] + cs)
                     case e => e)
      case OutOfRange => OutOfRange
      case UnknownMapping => UnknownMapping
  }

  function EncodedText(t: Mapping, s: seq<QChar>): Result<seq<Byte>> {
    if s == [] then Ok([])
    else
      match Encoded(t, s[0])
      case Ok(b) => (match EncodedText(t, s[1..])
                     case Ok(bs) => Ok([b] + bs)
                     case e => e)
      case OutOfRange => OutOfRange
      case UnknownMapping => UnknownMapping
  }

  /** Decoding a text and encoding the result. */
  function Recoded(t: Mapping, s: seq<Byte>): Result<seq<Byte>> {
    match DecodedText(t, s)
    case Ok(cs) => EncodedText(t, cs)
    case OutOfRange => OutOfRange
    case UnknownMapping => UnknownMapping
  }

  predicate SevenBit(s: seq<Byte>) {
    forall i :: 0 <= i < |s| ==> s[i] < 0x80
  }

  lemma RecodedStep(t: Mapping, s: seq<Byte>)
    requires s != [] && s[0] in t && Encoded(t, t[s[0]]).Ok? && Recoded(t, s[1..]).Ok?
    ensures Recoded(t, s) == Ok([Encoded(t, t[s[0]]).value] + Recoded(t, s[1..]).value)
  {
    var cs := DecodedText(t, s[1..]).value;
    assert ([t[s[0]]] + cs)[1..] == cs;
  }

  /** Two bytes of the base table show the same blank as byte 0x02. */
  function Canonical(b: Byte): Byte {
    if b == 0x0D || b == 0x20 then 0x02 else b
  }

  function CanonicalText(s: seq<Byte>): seq<Byte> {
    seq(|s|, i requires 0 <= i < |s| => Canonical(s[i]))
  }

  /** Under the base table a text comes back with its blanks unified. */
  lemma {:induction false} BaseTextRoundTrip(s: seq<Byte>)
    requires SevenBit(s)
    ensures Recoded(BaseTable(), s) == Ok(CanonicalText(s))
  {
    if s != [] {
      BaseTextRoundTrip(s[1..]);
      BaseRoundTrip(s[0]);
      RecodedStep(BaseTable(), s);
      assert CanonicalText(s) == [Canonical(s[0])] + CanonicalText(s[1..]);
    }
  }

  /** Hence it comes back unchanged exactly when it holds neither 0x0D nor 0x20. */
  lemma BaseTextUnchangedIff(s: seq<Byte>)
    requires SevenBit(s)
    ensures Recoded(BaseTable(), s) == Ok(s) <==> 0x0D !in s && 0x20 !in s
  {
    BaseTextRoundTrip(s);
    if CanonicalText(s) == s {
      forall i | 0 <= i < |s| ensures s[i] != 0x0D && s[i] != 0x20 {
        assert CanonicalText(s)[i] == Canonical(s[i]);
      }
    }
  }

  /** Under the international table every text of 7-bit bytes comes back as it was. */
  lemma {:induction false} InternationalTextRoundTrip(s: seq<Byte>)
    requires SevenBit(s)
    ensures Recoded(InternationalTable(), s) == Ok(s)
  {
    if s != [] {
      InternationalTextRoundTrip(s[1..]);
      InternationalRoundTrip(s[0]);
      RecodedStep(InternationalTable(), s);
      assert s == [s[0]] + s[1..];
    }
  }

  /** Under any table: a text can be decoded exactly when every byte is mapped; otherwise the lookup throws. */
  lemma {:induction false} DecodesIff(t: Mapping, s: seq<Byte>)
    ensures if forall i :: 0 <= i < |s| ==> s[i] in t
            then DecodedText(t, s).Ok? && |DecodedText(t, s).value| == |s|
                 && forall i :: 0 <= i < |s| ==> DecodedText(t, s).value[i] == t[s[i]]
            else DecodedText(t, s) == OutOfRange
  {
    if s != [] {
      DecodesIff(t, s[1..]);
      assert forall i | 1 <= i < |s| :: s[i] == s[1..][i - 1];
    }
  }

  /** Under any table: a text can be encoded exactly when every glyph is mapped, and then decodes to itself. */
  lemma {:induction false} EncodeThenDecode(t: Mapping, s: seq<QChar>)
    ensures if forall i :: 0 <= i < |s| ==> s[i] in t.Values
            then EncodedText(t, s).Ok? && DecodedText(t, EncodedText(t, s).value) == Ok(s)
            else EncodedText(t, s) == UnknownMapping
  {
    if s != [] {
      EncodeThenDecode(t, s[1..]);
      EncodedFromIsLeast(t, s[0], 0);
      assert forall i | 1 <= i < |s| :: s[i] == s[1..][i - 1];
      if EncodedText(t, s).Ok? {
        var bs := EncodedText(t, s[1..]).value;
        assert EncodedText(t, s).value[1..] == bs;
        assert s == [s[0]] + s[1..];
      }
    }
  }

  // ---------- The shared table over the run of the program ----------

  datatype Construction = Base | International

  function TableOf(c: Construction): Mapping {
    if c.Base? then BaseTable() else InternationalTable()
  }

  /** The shared table after codec objects of these kinds have been constructed. */
  function TableAfter(t: Mapping, made: seq<Construction>): Mapping
    decreases made
  {
    if made == [] then t
    else if made[0].Base? then TableAfter(BaseTable(), made[1..])
    else TableAfter(InternationalTable(), made[1..])
  }

  /** All objects ever made, also the old ones, translate by the table of the last one made. */
  lemma {:induction false} LastConstructorDecides(t: Mapping, made: seq<Construction>)
    requires made != []
    ensures TableAfter(t, made) == TableOf(made[|made| - 1])
    ensures forall b: Byte :: b in TableAfter(t, made) <==> b < 0x80
    decreases made
  {
    if |made| > 1 {
      LastConstructorDecides(TableOf(made[0]), made[1..]);
    } else {
      assert made[1..] == [];
    }
  }

  /** The 7-bit bytes with the same glyph in both tables. */
  predicate Unchanged(b: Byte) {
    0x1B <= b < 0x80 && b != 0x60 && b != 0x7B
  }

  lemma UnchangedIff(b: Byte)
    requires b < 0x80
    ensures BaseGlyph(b) == InternationalGlyph(b) <==> Unchanged(b)
  {
  }

  /** The printable bytes mean themselves in both tables. */
  lemma PrintableBytes(b: Byte)
    requires 0x20 <= b <= 0x5F || 0x61 <= b <= 0x7A || b == 0x7C
    ensures Decoded(BaseTable(), b) == Ok(b) == Decoded(InternationalTable(), b)
  {
  }

  /** An object made for the base table still decodes a byte that way unless the byte is one of those replaced since. */
  lemma BaseObjectDecodesIff(t: Mapping, made: seq<Construction>, b: Byte)
    requires made != [] && b < 0x80
    ensures Decoded(TableAfter(t, made), b) == Ok(BaseGlyph(b)) <==> made[|made| - 1].Base? || Unchanged(b)
  {
    LastConstructorDecides(t, made);
    UnchangedIff(b);
  }

  /** Likewise for an object made for the international table. */
  lemma InternationalObjectDecodesIff(t: Mapping, made: seq<Construction>, b: Byte)
    requires made != [] && b < 0x80
    ensures Decoded(TableAfter(t, made), b) == Ok(InternationalGlyph(b))
            <==> made[|made| - 1].International? || Unchanged(b)
  {
    LastConstructorDecides(t, made);
    UnchangedIff(b);
  }

  /** A glyph encoded alike by both tables: that of an unchanged byte other than the blank 0x20, or of no byte. */
  ghost predicate SameCode(c: QChar) {
    (exists b: Byte :: Unchanged(b) && b != 0x20 && BaseGlyph(b) == c)
    || (c !in BaseTable().Values && c !in InternationalTable().Values)
  }

  lemma SameByteIff(c: QChar, b: Byte)
    ensures Encoded(BaseTable(), c) == Ok(b) == Encoded(InternationalTable(), c)
            <==> Unchanged(b) && b != 0x20 && BaseGlyph(b) == c
  {
    EncodedIsLeast(BaseTable(), c, b);
    EncodedIsLeast(InternationalTable(), c, b);
    if b < 0x80 {
      UnchangedIff(b);
      if BaseGlyph(b) == c == InternationalGlyph(b) {
        BaseRoundTrip(b);
        InternationalRoundTrip(b);
      }
    }
  }

  lemma SameCodeIff(c: QChar)
    ensures Encoded(BaseTable(), c) == Encoded(InternationalTable(), c) <==> SameCode(c)
  {
    EncodedFromIsLeast(BaseTable(), c, 0);
    EncodedFromIsLeast(InternationalTable(), c, 0);
    forall b: Byte
      ensures Encoded(BaseTable(), c) == Ok(b) == Encoded(InternationalTable(), c)
              <==> Unchanged(b) && b != 0x20 && BaseGlyph(b) == c
    {
      SameByteIff(c, b);
    }
  }

  /** An object of either kind encodes a glyph as when it was made unless the last object is of the other kind. */
  lemma ObjectEncodesIff(t: Mapping, made: seq<Construction>, kind: Construction, c: QChar)
    requires made != []
    ensures Encoded(TableAfter(t, made), c) == Encoded(TableOf(kind), c)
            <==> made[|made| - 1] == kind || SameCode(c)
  {
    LastConstructorDecides(t, made);
    SameCodeIff(c);
  }

  /** An object of each kind, as one printer holds them: byte 0x00 of the base object is no longer a heart. */
  method TwoCodecsExample() returns (before: Result<QChar>, after: Result<QChar>)
    ensures before == Ok(0x2665) && after == Ok(0x00E1)
  {
    var shared := new GlyphTable();
    var base := new Codec.Atascii(shared);
    before := base.Decode(0x00);
    var international := new Codec.AtasciiInternational(shared);
    after := base.Decode(0x00);
  }
}
