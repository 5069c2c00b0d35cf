/** UTF-8, as the reference for the sizes that texts are packed by. */
module Utf8 {
  import opened Packing

  /** A lead byte that says how many bytes follow, and six bits in each that does. */
  function BytesOf(c: char): (r: seq<int>)
    ensures |r| >= 1
  {
    var v := c as int;
    if v < 0x80 then [v]
    else if v < 0x800 then [0xC0 + v / 0x40, Follow(v)]
    else if v < 0x1_0000 then [0xE0 + v / 0x1000, Follow(v / 0x40), Follow(v)]
    else [0xF0 + v / 0x4_0000, Follow(v / 0x1000), Follow(v / 0x40), Follow(v)]
  }

  function Follow(v: nat): int {
    0x80 + v % 0x40
  }

  /** How long the sequence is that a byte leads. */
  function Announced(lead: int): nat {
    if lead < 0x80 then 1 else if lead < 0xE0 then 2 else if lead < 0xF0 then 3 else 4
  }

  function Payload(lead: int): int {
    if lead < 0x80 then lead else if lead < 0xE0 then lead - 0xC0 else if lead < 0xF0 then lead - 0xE0 else lead - 0xF0
  }

  /** The number that a lead byte and the bytes after it stand for. */
  function CodeOf(lead: int, rest: seq<int>): int {
    if rest == [] then Payload(lead) else CodeOf(lead, rest[..|rest| - 1]) * 0x40 + (rest[|rest| - 1] - 0x80)
  }

  lemma CodeOfUpToThree(lead: int, a: int, b: int, c: int)
    ensures CodeOf(lead, [a]) == Payload(lead) * 0x40 + (a - 0x80)
    ensures CodeOf(lead, [a, b]) == CodeOf(lead, [a]) * 0x40 + (b - 0x80)
    ensures CodeOf(lead, [a, b, c]) == CodeOf(lead, [a, b]) * 0x40 + (c - 0x80)
  {
    assert [a, b, c][..2] == [a, b] && [a, b][..1] == [a] && [a][..0] == [];
  }

  /** The bytes of a character announce their own number, and are told apart by their range. */
  lemma BytesAnnounce(c: char)
    ensures |BytesOf(c)| == Announced(BytesOf(c)[0]) == Width(c)
    ensures forall i :: 0 <= i < |BytesOf(c)| ==> 0 <= BytesOf(c)[i] < 0x100 && (i > 0 <==> 0x80 <= BytesOf(c)[i] < 0xC0)
  {
  }

  lemma Digits(v: nat)
    ensures v == v / 0x40 * 0x40 + v % 0x40 && v / 0x40 / 0x40 == v / 0x1000 && v / 0x1000 / 0x40 == v / 0x4_0000
  {
  }

  /** And they stand for the character. */
  lemma BytesDecode(c: char)
    ensures CodeOf(BytesOf(c)[0], BytesOf(c)[1..]) == c as int
  {
    var v, bytes := c as int, BytesOf(c);
    var lead, low, mid, high := bytes[0], Follow(v), Follow(v / 0x40), Follow(v / 0x1000);
    Digits(v);
    Digits(v / 0x40);
    Digits(v / 0x1000);
    if |bytes| == 1 {
      assert bytes[1..] == [];
    } else if |bytes| == 2 {
      assert bytes[1..] == [low];
      CodeOfUpToThree(lead, low, 0, 0);
    } else if |bytes| == 3 {
      assert bytes[1..] == [mid, low];
      CodeOfUpToThree(lead, mid, low, 0);
    } else {
      assert bytes[1..] == [high, mid, low];
      CodeOfUpToThree(lead, high, mid, low);
    }
  }

  function Encoded(s: string): seq<int> {
    if s == "" then [] else BytesOf(s[0]) + Encoded(s[1..])
  }

  /** The size of a text is the number of its bytes. */
  lemma {:induction false} SizeIsBytes(s: string)
    ensures Bytes(s) == |Encoded(s)|
    decreases |s|
  {
    if s != "" {
      SizeIsBytes(s[1..]);
      BytesAnnounce(s[0]);
      assert s == [s[0]] + s[1..] && [s[0]][..0] == "";
      BytesConcat([s[0]], s[1..]);
      assert Bytes([s[0]]) == Bytes("") + Width(s[0]);
    }
  }
}
