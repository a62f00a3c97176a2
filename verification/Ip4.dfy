/** Rendering of NetworkManager's IPv4 addresses, which arrive over D-Bus as a
    `uint32` in network byte order read as a little-endian integer: the byte
    that prints first is the low-order byte. Shifts and masks on the unsigned
    value are written as division and remainder by powers of 256. */
module Ip4 {
  import opened Results
  import opened Text
  import opened Ints

  /** The weight of byte `i` of a little-endian 32-bit word: `1 << (8 * i)`. */
  function ByteWeight(i: nat): (w: nat)
    requires i < 4
    ensures w > 0
  {
    [0x1, 0x100, 0x1_0000, 0x100_0000][i]
  }

  /** Byte `i` of `v` in little-endian order: `byte(v >> (8 * i))`. */
  function ByteOf(v: uint32, i: nat): uint8
    requires i < 4
  {
    (v / ByteWeight(i)) % 0x100
  }

  /** `binary.LittleEndian.PutUint32`: the four bytes of `v`, low-order first. */
  function PutUint32(v: uint32): (bs: seq<uint8>)
    ensures |bs| == 4
    ensures Uint32(bs) == v
  {
    var bs := [ByteOf(v, 0), ByteOf(v, 1), ByteOf(v, 2), ByteOf(v, 3)];
    Recombine(v);
    bs
  }

  /** `binary.LittleEndian.Uint32`: the word whose little-endian bytes are `bs`. */
  function Uint32(bs: seq<uint8>): uint32
    requires |bs| == 4
  {
    (bs[0] as int) + 0x100 * (bs[1] as int) + 0x1_0000 * (bs[2] as int) + 0x100_0000 * (bs[3] as int)
  }

  lemma Recombine(v: uint32)
    ensures v == ByteOf(v, 0) + 0x100 * ByteOf(v, 1) + 0x1_0000 * ByteOf(v, 2) + 0x100_0000 * ByteOf(v, 3)
  {
    var q1 := v / 0x100;
    var q2 := q1 / 0x100;
    var q3 := q2 / 0x100;
    assert v / 0x1_0000 == q2;
    assert v / 0x100_0000 == q3;
  }

  /** Reading the bytes back and splitting them again gives the same bytes. */
  lemma PutUint32OfUint32(bs: seq<uint8>)
    requires |bs| == 4
    ensures PutUint32(Uint32(bs)) == bs
  {
    var v := Uint32(bs);
    assert v / 0x100 == (bs[1] as int) + 0x100 * (bs[2] as int) + 0x1_0000 * (bs[3] as int);
    assert v / 0x1_0000 == (bs[2] as int) + 0x100 * (bs[3] as int);
    assert v / 0x100_0000 == bs[3];
  }

  /** `ip4ToString`: the little-endian bytes of `ip` in dotted-decimal form. */
  function Ip4ToString(ip: uint32): string
  {
    Join(Fields(PutUint32(ip)), '.')
  }

  /** The decimal form of each byte, in order. */
  function Fields(bs: seq<uint8>): (fs: seq<string>)
    requires |bs| == 4
    ensures |fs| == 4
    ensures forall i :: 0 <= i < 4 ==> '.' !in fs[i]
  {
    var fs := [Decimal(bs[0]), Decimal(bs[1]), Decimal(bs[2]), Decimal(bs[3])];
    assert forall i :: 0 <= i < 4 ==> AllDigits(fs[i]);
    fs
  }

  /** A dotted-quad field: a canonical decimal numeral of at most 255. */
  predicate IsByteField(f: string) {
    IsCanonicalDecimal(f) && DigitsValue(f) < 0x100
  }

  /** Reference reader of dotted-quad text: exactly four fields separated by
      `.`, each a canonical decimal byte, recombined little-endian. */
  function ParseIp4(s: string): Option<uint32>
  {
    var fs := Split(s, '.');
    if |fs| == 4 && forall i :: 0 <= i < 4 ==> IsByteField(fs[i]) then
      Some(Uint32([DigitsValue(fs[0]), DigitsValue(fs[1]), DigitsValue(fs[2]), DigitsValue(fs[3])]))
    else
      None
  }

  /** The text has four fields and three dots; field `i` is the decimal form
      of byte `i` of `ip`, low-order byte first, without leading zeros. */
  lemma {:induction false} Ip4ToStringFields(ip: uint32)
    ensures |Split(Ip4ToString(ip), '.')| == 4
    ensures Count(Ip4ToString(ip), '.') == 3
    ensures forall i :: 0 <= i < 4 ==>
      && IsByteField(Split(Ip4ToString(ip), '.')[i])
      && DigitsValue(Split(Ip4ToString(ip), '.')[i]) == ByteOf(ip, i)
  {
    var fs := Fields(PutUint32(ip));
    SplitJoin(fs, '.');
    CountJoin(fs, '.');
  }

  /** Each field has one to three characters, so the text has 7 to 15. */
  lemma {:induction false} Ip4ToStringLength(ip: uint32)
    ensures 7 <= |Ip4ToString(ip)| <= 15
  {
    var bs := PutUint32(ip);
    var fs := Fields(bs);
    DecimalLength(bs[0]);
    DecimalLength(bs[1]);
    DecimalLength(bs[2]);
    DecimalLength(bs[3]);
    JoinFour(fs, '.');
  }

  /** Reading the rendering of `ip` gives back `ip`. */
  lemma {:induction false} ParseIp4ToString(ip: uint32)
    ensures ParseIp4(Ip4ToString(ip)) == Some(ip)
  {
    Ip4ToStringFields(ip);
  }

  /** A text that reads as `ip` is the rendering of `ip`: the reader accepts
      only the canonical spelling. */
  lemma {:induction false} Ip4ToStringOfParse(s: string, ip: uint32)
    requires ParseIp4(s) == Some(ip)
    ensures Ip4ToString(ip) == s
  {
    var fs := Split(s, '.');
    var bs := [DigitsValue(fs[0]), DigitsValue(fs[1]), DigitsValue(fs[2]), DigitsValue(fs[3])];
    PutUint32OfUint32(bs);
    DecimalOfDigitsValue(fs[0]);
    DecimalOfDigitsValue(fs[1]);
    DecimalOfDigitsValue(fs[2]);
    DecimalOfDigitsValue(fs[3]);
    assert Fields(PutUint32(ip)) == fs;
    JoinSplit(s, '.');
  }

  /** `ParseIp4` and `Ip4ToString` are inverse: the rendering of `ip` is the
      one text that reads back as `ip`. */
  lemma {:induction false} Ip4ToStringParse(ip: uint32, s: string)
    ensures Ip4ToString(ip) == s <==> ParseIp4(s) == Some(ip)
  {
    if Ip4ToString(ip) == s {
      ParseIp4ToString(ip);
    }
    if ParseIp4(s) == Some(ip) {
      Ip4ToStringOfParse(s, ip);
    }
  }

  /** Distinct addresses render as distinct texts. */
  lemma {:induction false} Ip4ToStringInjective(a: uint32, b: uint32)
    ensures a != b ==> Ip4ToString(a) != Ip4ToString(b)
  {
    ParseIp4ToString(a);
    ParseIp4ToString(b);
  }
}
