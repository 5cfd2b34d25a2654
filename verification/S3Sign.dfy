/** s3_sign of kurl.c: the keyed hash of a text, written with the characters of RFC 4648. */
module S3Sign {
  import opened Sha1Standard
  import Sha1

  const UPPER := "ABCDEFGHIJKLMNOPQRSTUVWXYZ"
  const LOWER := "abcdefghijklmnopqrstuvwxyz"
  const TABLE := UPPER + LOWER + "0123456789+/"

  /** RFC 4648, section 4: three bytes as one number of 24 bits. */
  function Group(a: Byte, b: Byte, c: Byte): Word {
    ((a as Word) << 16) | ((b as Word) << 8) | (c as Word)
  }

  function Sextet0(n: Word): Word {
    (n >> 18) & 0x3f
  }

  function Sextet1(n: Word): Word {
    (n >> 12) & 0x3f
  }

  function Sextet2(n: Word): Word {
    (n >> 6) & 0x3f
  }

  function Sextet3(n: Word): Word {
    n & 0x3f
  }

  /** The character of six bits. */
  function CharOf(x: Word): char {
    TABLE[(x & 0x3f) as nat]
  }

  /** RFC 4648, section 4, table 1. */
  function Letter(i: nat): char
    requires i < 64
  {
    if i < 26 then 'A' + i as char
    else if i < 52 then 'a' + (i - 26) as char
    else if i < 62 then '0' + (i - 52) as char
    else if i == 62 then '+'
    else '/'
  }

  lemma TableUpper(i: nat)
    requires i < 26
    ensures TABLE[i] == 'A' + i as char
  {
    assert TABLE[i] == UPPER[i];
  }

  lemma TableLower(i: nat)
    requires 26 <= i < 52
    ensures TABLE[i] == 'a' + (i - 26) as char
  {
    assert TABLE[i] == LOWER[i - 26];
  }

  lemma TableRest(i: nat)
    requires 52 <= i < 64
    ensures TABLE[i] == if i < 62 then '0' + (i - 52) as char else if i == 62 then '+' else '/'
  {
  }

  lemma TableIs(i: nat)
    requires i < 64
    ensures TABLE[i] == Letter(i)
  {
    hide *;
    if i < 26 {
      TableUpper(i);
    } else if i < 52 {
      TableLower(i);
    } else {
      TableRest(i);
    }
    LetterIs(i);
  }

  lemma LetterIs(i: nat)
    requires i < 64
    ensures i < 26 ==> Letter(i) == 'A' + i as char
    ensures 26 <= i < 52 ==> Letter(i) == 'a' + (i - 26) as char
    ensures 52 <= i ==> Letter(i) == if i < 62 then '0' + (i - 52) as char else if i == 62 then '+' else '/'
  {
  }

  lemma LowNumber(i: nat)
    requires i < 32
    ensures ((i as Word) & 0x3f) as nat == i
  {
  }

  lemma MiddleNumber(i: nat)
    requires 32 <= i < 48
    ensures ((i as Word) & 0x3f) as nat == i
  {
  }

  lemma HighNumber(i: nat)
    requires 48 <= i < 64
    ensures ((i as Word) & 0x3f) as nat == i
  {
  }

  /** Six bits are written as the letter of their number. */
  lemma CharOfNumber(i: nat)
    requires i < 64
    ensures CharOf(i as Word) == Letter(i)
  {
    hide Letter;
    TableIs(i);
    if i < 32 {
      LowNumber(i);
    } else if i < 48 {
      MiddleNumber(i);
    } else {
      HighNumber(i);
    }
  }

  /** RFC 4648, section 4: groups of three bytes, the last one filled up with zeros and marked. */
  function Base64(bytes: seq<Byte>): string {
    if bytes == [] then ""
    else if |bytes| == 1 then
      var n := Group(bytes[0], 0, 0); [CharOf(Sextet0(n)), CharOf(Sextet1(n)), '=', '=']
    else if |bytes| == 2 then
      var n := Group(bytes[0], bytes[1], 0); [CharOf(Sextet0(n)), CharOf(Sextet1(n)), CharOf(Sextet2(n)), '=']
    else
      FourChars(Group(bytes[0], bytes[1], bytes[2])) + Base64(bytes[3..])
  }

  function FourChars(n: Word): string {
    [CharOf(Sextet0(n)), CharOf(Sextet1(n)), CharOf(Sextet2(n)), CharOf(Sextet3(n))]
  }

  lemma FoobaSextets()
    ensures var n := Group(0x66, 0x6f, 0x6f);
            Sextet0(n) == 25 && Sextet1(n) == 38 && Sextet2(n) == 61 && Sextet3(n) == 47
    ensures var n := Group(0x62, 0x61, 0); Sextet0(n) == 24 && Sextet1(n) == 38 && Sextet2(n) == 4
  {
  }

  lemma FoobaChars()
    ensures CharOf(25) == 'Z' && CharOf(38) == 'm' && CharOf(61) == '9' && CharOf(47) == 'v'
    ensures CharOf(24) == 'Y' && CharOf(4) == 'E'
  {
    hide CharOf;
    CharOfNumber(25);
    CharOfNumber(38);
    CharOfNumber(61);
    CharOfNumber(47);
    CharOfNumber(24);
    CharOfNumber(4);
  }

  /** The test vector of section 10 of RFC 4648 whose last group has two bytes. */
  lemma FoobaExample()
    ensures Base64([0x66, 0x6f, 0x6f, 0x62, 0x61]) == "Zm9vYmE="
  {
    FoobaSextets();
    FoobaChars();
    hide CharOf, Sextet0, Sextet1, Sextet2, Sextet3, Group;
    var bytes: seq<Byte> := [0x66, 0x6f, 0x6f, 0x62, 0x61];
    assert bytes[3..] == [0x62, 0x61];
    assert Base64(bytes[3..]) == "YmE=";
  }

  lemma FoobSextets()
    ensures var n := Group(0x62, 0, 0); Sextet0(n) == 24 && Sextet1(n) == 32
  {
  }

  /** The test vectors of section 10 of RFC 4648 whose last groups have three bytes and one. */
  lemma FoobExample()
    ensures Base64([0x66, 0x6f, 0x6f]) == "Zm9v" && Base64([0x66, 0x6f, 0x6f, 0x62]) == "Zm9vYg=="
  {
    FoobaSextets();
    FoobSextets();
    FoobaChars();
    assert CharOf(32) == 'g' by {
      hide CharOf;
      CharOfNumber(32);
    }
    hide CharOf, Sextet0, Sextet1, Sextet2, Sextet3, Group;
    var three, four: seq<Byte> := [0x66, 0x6f, 0x6f], [0x66, 0x6f, 0x6f, 0x62];
    assert three[3..] == [] && four[3..] == [0x62];
    assert Base64(three[3..]) == "" && Base64(four[3..]) == "Yg==";
  }

  /** The character at place j for bytes whose last group has two. */
  function CharAt(bytes: seq<Byte>, j: nat): char
    requires |bytes| % 3 == 2 && j / 4 * 3 + 1 < |bytes|
  {
    var g := j / 4 * 3;
    var n := Group(bytes[g], bytes[g + 1], if g + 2 < |bytes| then bytes[g + 2] else 0);
    if j % 4 == 0 then CharOf(Sextet0(n)) else if j % 4 == 1 then CharOf(Sextet1(n))
    else if j % 4 == 2 then CharOf(Sextet2(n)) else CharOf(Sextet3(n))
  }

  lemma {:induction false} Base64At(bytes: seq<Byte>, j: nat)
    requires |bytes| % 3 == 2 && j < (|bytes| + 1) / 3 * 4
    ensures |Base64(bytes)| == (|bytes| + 1) / 3 * 4
    ensures Base64(bytes)[j] == if j == |Base64(bytes)| - 1 then '=' else CharAt(bytes, j)
    decreases |bytes|
  {
    hide CharOf, Sextet0, Sextet1, Sextet2, Sextet3, Group, CharAt;
    if |bytes| == 2 {
      FirstGroup(bytes, j);
    } else {
      assert |bytes[3..]| % 3 == 2;
      if j < 4 {
        Base64At(bytes[3..], 0);
        FirstGroup(bytes, j);
      } else {
        Base64At(bytes[3..], j - 4);
        NextGroup(bytes, j);
      }
    }
  }

  lemma FirstGroup(bytes: seq<Byte>, j: nat)
    requires |bytes| % 3 == 2 && j < 4
    ensures CharAt(bytes, j) == FourChars(Group(bytes[0], bytes[1], if |bytes| > 2 then bytes[2] else 0))[j]
  {
    hide CharOf, Sextet0, Sextet1, Sextet2, Sextet3, Group;
  }

  lemma NextGroup(bytes: seq<Byte>, j: nat)
    requires |bytes| % 3 == 2 && |bytes| > 2 && 4 <= j && j / 4 * 3 + 1 < |bytes|
    ensures |bytes[3..]| % 3 == 2 && (j - 4) / 4 * 3 + 1 < |bytes[3..]| && CharAt(bytes[3..], j - 4) == CharAt(bytes, j)
  {
    hide CharOf, Sextet0, Sextet1, Sextet2, Sextet3, Group;
    assert (j - 4) / 4 == j / 4 - 1 && (j - 4) % 4 == j % 4;
  }

  /** x << (6 - rest) & 0x3f, for the values that rest takes. */
  function LowBits(x: Byte, rest: nat): Word {
    if rest == 2 then ((x as Word) << 4) & 0x3f else if rest == 4 then ((x as Word) << 2) & 0x3f else (x as Word) & 0x3f
  }

  /** x >> (rest + 2) */
  function HighBits(x: Byte, rest: nat): Word {
    if rest == 2 then (x as Word) >> 4 else if rest == 4 then (x as Word) >> 6 else (x as Word) >> 8
  }

  /** The bits that character j takes from its byte and the next one. */
  function JoinedBits(x: Byte, next: Byte, rest: nat): Word {
    LowBits(x, rest) | HighBits(next, rest)
  }

  lemma FirstBits(a: Byte, b: Byte, c: Byte)
    ensures (a as Word) >> 2 == Sextet0(Group(a, b, c))
  {
  }

  lemma SecondBits(a: Byte, b: Byte, c: Byte)
    ensures JoinedBits(a, b, 2) == Sextet1(Group(a, b, c))
  {
  }

  lemma ThirdBits(a: Byte, b: Byte, c: Byte)
    ensures JoinedBits(b, c, 4) == Sextet2(Group(a, b, c))
  {
  }

  lemma FourthBits(a: Byte, b: Byte, c: Byte, x: Byte)
    ensures JoinedBits(c, x, 6) == Sextet3(Group(a, b, c))
  {
  }

  /** Where the loop stands before character j: the byte it takes bits from, and eight or two more than the bits it has
      already taken. */
  predicate Stands(i: nat, rest: nat, j: nat) {
    match j % 4
    case 0 => i == j / 4 * 3 && rest == 8
    case 1 => i == j / 4 * 3 && rest == 2
    case 2 => i == j / 4 * 3 + 1 && rest == 4
    case _ => i == j / 4 * 3 + 2 && rest == 6
  }

  lemma SecondChar(digest: seq<Byte>, i: nat, j: nat)
    requires |digest| == 20 && i < 20 && Stands(i, 2, j)
    ensures CharOf(JoinedBits(digest[i], if i < 19 then digest[i + 1] else 0, 2)) == CharAt(digest, j)
  {
    hide CharOf, JoinedBits, Sextet0, Sextet1, Sextet2, Sextet3, Group;
    var g := j / 4 * 3;
    SecondBits(digest[g], digest[g + 1], if g + 2 < 20 then digest[g + 2] else 0);
  }

  lemma ThirdChar(digest: seq<Byte>, i: nat, j: nat)
    requires |digest| == 20 && i < 20 && Stands(i, 4, j)
    ensures CharOf(JoinedBits(digest[i], if i < 19 then digest[i + 1] else 0, 4)) == CharAt(digest, j)
  {
    hide CharOf, JoinedBits, Sextet0, Sextet1, Sextet2, Sextet3, Group;
    var g := j / 4 * 3;
    ThirdBits(digest[g], digest[g + 1], if g + 2 < 20 then digest[g + 2] else 0);
  }

  lemma FourthChar(digest: seq<Byte>, i: nat, j: nat)
    requires |digest| == 20 && i < 20 && Stands(i, 6, j)
    ensures CharOf(JoinedBits(digest[i], if i < 19 then digest[i + 1] else 0, 6)) == CharAt(digest, j)
  {
    hide CharOf, JoinedBits, Sextet0, Sextet1, Sextet2, Sextet3, Group;
    var g := j / 4 * 3;
    FourthBits(digest[g], digest[g + 1], if g + 2 < 20 then digest[g + 2] else 0, if i < 19 then digest[i + 1] else 0);
  }

  /** The bits of two neighbouring bytes that make up character j. */
  lemma SplitChar(digest: seq<Byte>, i: nat, rest: nat, j: nat)
    requires |digest| == 20 && i < 20 && Stands(i, rest, j) && rest <= 6
    ensures CharOf(JoinedBits(digest[i], if i < 19 then digest[i + 1] else 0, rest)) == CharAt(digest, j)
  {
    hide CharOf, JoinedBits, CharAt;
    if rest == 2 {
      SecondChar(digest, i, j);
    } else if rest == 4 {
      ThirdChar(digest, i, j);
    } else {
      FourthChar(digest, i, j);
    }
  }

  lemma WholeChar(digest: seq<Byte>, i: nat, j: nat)
    requires |digest| == 20 && i < 20 && Stands(i, 8, j)
    ensures i + 1 < 20 && CharOf((digest[i] as Word) >> 2) == CharAt(digest, j)
  {
    hide CharOf, Sextet0, Sextet1, Sextet2, Sextet3, Group;
    FirstBits(digest[i], digest[i + 1], if i + 2 < 20 then digest[i + 2] else 0);
  }

  /** The loop of s3_sign over a digest of twenty bytes. */
  method Encode(digest: seq<Byte>) returns (out: string)
    requires |digest| == 20
    ensures out == Base64(digest)
  {
    hide CharOf, JoinedBits, CharAt, Base64;
    var i, j, rest := 0, 0, 8;
    out := "";
    while i < 20
      invariant i <= 20 && Stands(i, rest, j) && |out| == j
      invariant forall k :: 0 <= k < j ==> k / 4 * 3 + 1 < 20 && out[k] == CharAt(digest, k)
      decreases 20 - i, rest
    {
      if rest <= 6 {
        SplitChar(digest, i, rest, j);
        var next := if i < 19 then digest[i + 1] else 0;
        out := out + [CharOf(JoinedBits(digest[i], next, rest))];
        i, rest := i + 1, rest + 2;
      } else {
        WholeChar(digest, i, j);
        out := out + [CharOf((digest[i] as Word) >> 2)];
        rest := rest - 6;
      }
      j := j + 1;
    }
    out := out + "=";
    Base64At(digest, 0);
    forall k | 0 <= k < 28 ensures out[k] == Base64(digest)[k] {
      Base64At(digest, k);
    }
  }

  /** s3_sign */
  method Sign(key: seq<Byte>, data: seq<Byte>) returns (out: string)
    requires |key| <= Sha1.INT_MAX && 64 + |data| < 0x1_0000_0000
    ensures out == Base64(Hmac(key, data))
  {
    hide Sha1.Sha1Info.Held, Sha1Standard.Sha1, BlockKey, Masked, Base64;
    var s := new Sha1.Sha1Info();
    s.InitHmac(key);
    s.Write(data);
    var digest := s.FinalHmac(key, data);
    out := Encode(digest);
  }
}
