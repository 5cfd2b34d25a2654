/** What the request parser reads from a text: lines, tokens, methods, versions and header values. */
module HttpText {
  import opened Wrappers

  const SIZE_LIMIT := 0x1_0000_0000_0000_0000
  const INT64_MAX := 0x7FFF_FFFF_FFFF_FFFF

  /** A part of the posted text, as offset and length. */
  datatype View = View(pos: nat, len: nat)

  predicate Inside(v: View, n: nat) {
    v.pos + v.len <= n
  }

  function Text(post: string, v: View): string
    requires Inside(v, |post|)
  {
    post[v.pos..v.pos + v.len]
  }

  /** Where the next CR LF begins. */
  function FindCrlf(post: string, from: nat): (r: Option<nat>)
    ensures r.Some? ==> from <= r.value && r.value + 1 < |post| && post[r.value] == '\r' && post[r.value + 1] == '\n'
    decreases |post| - from
  {
    if from + 1 >= |post| then None
    else if post[from] == '\r' && post[from + 1] == '\n' then Some(from)
    else FindCrlf(post, from + 1)
  }

  /** pos_next_token: where the next c is, within the first `end` characters. */
  function FindChar(post: string, c: char, from: nat, end: nat): (r: Option<nat>)
    requires end <= |post|
    ensures r.Some? ==> from <= r.value < end && post[r.value] == c
    decreases end - from
  {
    if from >= end then None
    else if post[from] == c then Some(from)
    else FindChar(post, c, from + 1, end)
  }

  lemma {:induction false} FindCrlfIs(post: string, from: nat, i: nat)
    requires from <= i && i + 1 < |post| && post[i] == '\r' && post[i + 1] == '\n'
    requires forall k :: from <= k < i ==> !(post[k] == '\r' && post[k + 1] == '\n')
    ensures FindCrlf(post, from) == Some(i)
    decreases i - from
  {
    if from < i {
      FindCrlfIs(post, from + 1, i);
    }
  }

  lemma {:induction false} FindCharIs(post: string, c: char, from: nat, end: nat, i: nat)
    requires from <= i < end <= |post| && post[i] == c
    requires forall k :: from <= k < i ==> post[k] != c
    ensures FindChar(post, c, from, end) == Some(i)
    decreases i - from
  {
    if from < i {
      FindCharIs(post, c, from + 1, end, i);
    }
  }

  lemma {:induction false} FindCharNone(post: string, c: char, from: nat, end: nat)
    requires end <= |post| && forall k :: from <= k < end ==> post[k] != c
    ensures FindChar(post, c, from, end) == None
    decreases end - from
  {
    if from < end {
      FindCharNone(post, c, from + 1, end);
    }
  }

  /** Once a line's end has been seen it stays where it is; if it has not, it is not in what has been posted. */
  lemma {:induction false} FindCrlfPrefix(a: string, t: string, from: nat)
    requires a <= t
    ensures FindCrlf(a, from).Some? ==> FindCrlf(t, from) == FindCrlf(a, from)
    ensures FindCrlf(a, from).None? && FindCrlf(t, from).Some? ==> |a| < FindCrlf(t, from).value + 2
    decreases |a| - from
  {
    if from + 1 < |a| {
      FindCrlfPrefix(a, t, from + 1);
    }
  }

  lemma {:induction false} FindCharPrefix(a: string, t: string, c: char, from: nat, end: nat)
    requires a <= t && end <= |a|
    ensures FindChar(a, c, from, end) == FindChar(t, c, from, end)
    decreases end - from
  {
    if from < end {
      FindCharPrefix(a, t, c, from + 1, end);
    }
  }

  datatype Method = Get | Head | Post | Put | UnknownMethod

  datatype Version = Http10 | Http11 | Http20 | Http30 | UnknownVersion

  /** http_match_method */
  function MatchMethod(s: string): Method {
    if s == "GET" then Get else if s == "HEAD" then Head else if s == "POST" then Post else if s == "PUT" then Put
        else UnknownMethod
  }

  /** http_match_version */
  function MatchVersion(s: string): Version {
    if |s| < 6 || s[..5] != "HTTP/" then UnknownVersion
    else if s[5] == '1' then
      if |s| != 8 || s[6] != '.' || (s[7] != '1' && s[7] != '0') then UnknownVersion
      else if s[7] == '1' then Http11 else Http10
    else if s[5] == '2' then Http20
    else if s[5] == '3' then Http30
    else UnknownVersion
  }

  /** The text is the method's name in a request line; only an unknown method has any other. */
  predicate NamesMethod(s: string, m: Method) {
    match m
    case Get => s == "GET"
    case Head => s == "HEAD"
    case Post => s == "POST"
    case Put => s == "PUT"
    case UnknownMethod => s != "GET" && s != "HEAD" && s != "POST" && s != "PUT"
  }

  /** The text is the version's name; of the major versions 2 and 3 only the first digit counts. */
  predicate NamesVersion(s: string, v: Version) {
    match v
    case Http10 => s == "HTTP/1.0"
    case Http11 => s == "HTTP/1.1"
    case Http20 => "HTTP/2" <= s
    case Http30 => "HTTP/3" <= s
    case UnknownVersion => s != "HTTP/1.0" && s != "HTTP/1.1" && !("HTTP/2" <= s) && !("HTTP/3" <= s)
  }

  /** Every text names one method, the one that it is matched with. */
  lemma MethodNamed(s: string, m: Method)
    ensures MatchMethod(s) == m <==> NamesMethod(s, m)
  {
  }

  lemma VersionOne(s: string)
    requires |s| >= 6 && s[..5] == "HTTP/" && s[5] == '1'
    ensures s == "HTTP/1.0" <==> |s| == 8 && s[6] == '.' && s[7] == '0'
    ensures s == "HTTP/1.1" <==> |s| == 8 && s[6] == '.' && s[7] == '1'
    ensures !("HTTP/2" <= s) && !("HTTP/3" <= s)
  {
    if |s| == 8 {
      assert s == s[..5] + [s[5], s[6], s[7]];
    }
  }

  lemma VersionPrefix(s: string, c: char)
    ensures "HTTP/" + [c] <= s <==> |s| >= 6 && s[..5] == "HTTP/" && s[5] == c
  {
    if |s| >= 6 && s[..5] == "HTTP/" && s[5] == c {
      assert s[..6] == s[..5] + [s[5]];
    }
    if "HTTP/" + [c] <= s {
      assert s[..5] == s[..6][..5];
    }
  }

  /** Every text names one version, the one that it is matched with. */
  lemma VersionNamed(s: string, v: Version)
    ensures MatchVersion(s) == v <==> NamesVersion(s, v)
  {
    VersionPrefix(s, '2');
    VersionPrefix(s, '3');
    assert "HTTP/2" == "HTTP/" + ['2'] && "HTTP/3" == "HTTP/" + ['3'];
    if |s| >= 6 && s[..5] == "HTTP/" && s[5] == '1' {
      VersionOne(s);
    }
  }

  predicate IsSpace(c: char) {
    c == ' ' || '\t' <= c <= '\r'
  }

  predicate IsDigit(c: char) {
    '0' <= c <= '9'
  }

  function SkipSpaces(s: string): string {
    if s != "" && IsSpace(s[0]) then SkipSpaces(s[1..]) else s
  }

  /** The value of the leading digits, read from left to right. */
  function Digits(s: string, acc: nat): nat
    decreases |s|
  {
    if s != "" && IsDigit(s[0]) then Digits(s[1..], acc * 10 + (s[0] - '0') as nat) else acc
  }

  /** strtoll in base ten: None if there is no digit; too large values are the nearest ones that fit. */
  function ParseInteger(s: string): Option<int> {
    var t := SkipSpaces(s);
    var u := if t != "" && (t[0] == '+' || t[0] == '-') then t[1..] else t;
    if u == "" || !IsDigit(u[0]) then None
    else
      var d: int := Digits(u, 0);
      if t[0] == '-' then Some(if d > INT64_MAX + 1 then -INT64_MAX - 1 else -d)
      else Some(if d > INT64_MAX then INT64_MAX else d)
  }

  /** A nonnegative number in decimal digits. */
  function Decimal(n: nat): string {
    if n < 10 then [DigitOf(n)] else Decimal(n / 10) + [DigitOf(n % 10)]
  }

  function DigitOf(d: nat): char
    requires d < 10
  {
    '0' + d as char
  }

  lemma {:induction false} DigitsAppend(a: string, b: string, acc: nat)
    requires forall i :: 0 <= i < |a| ==> IsDigit(a[i])
    ensures Digits(a + b, acc) == Digits(b, Digits(a, acc))
    decreases |a|
  {
    if a == "" {
      assert a + b == b;
    } else {
      assert (a + b)[1..] == a[1..] + b;
      DigitsAppend(a[1..], b, acc * 10 + (a[0] - '0') as nat);
    }
  }

  lemma {:induction false} DecimalDigits(n: nat)
    ensures Decimal(n) != "" && forall i :: 0 <= i < |Decimal(n)| ==> IsDigit(Decimal(n)[i])
    ensures Digits(Decimal(n), 0) == n
    decreases n
  {
    if n < 10 {
      assert Decimal(n)[1..] == "";
      assert Digits([], n) == n;
    } else {
      DecimalDigits(n / 10);
      DigitsAppend(Decimal(n / 10), [DigitOf(n % 10)], 0);
      assert [DigitOf(n % 10)][1..] == [];
      assert Digits([], n / 10 * 10 + n % 10) == n;
    }
  }

  /** A length written in decimal digits is read back. */
  lemma LengthReadBack(n: nat)
    requires n <= INT64_MAX
    ensures ParseInteger(Decimal(n)) == Some(n)
  {
    DecimalDigits(n);
    var s := Decimal(n);
    assert IsDigit(s[0]) && !IsSpace(s[0]);
    assert SkipSpaces(s) == s;
  }

  /** The characters that the C library skips before a number. */
  predicate Blanks(s: string) {
    forall i :: 0 <= i < |s| ==> s[i] in [' ', '\t', '\n', '\U{B}', '\U{C}', '\r']
  }

  predicate NoDigitFirst(s: string) {
    s == "" || s[0] !in "0123456789"
  }

  /** The value of a signed number of 64 bits nearest to n. */
  function Nearest(n: int): int {
    if n < -0x8000_0000_0000_0000 then -0x8000_0000_0000_0000
    else if n > 0x7FFF_FFFF_FFFF_FFFF then 0x7FFF_FFFF_FFFF_FFFF
    else n
  }

  lemma {:induction false} BlanksSkipped(blanks: string, s: string)
    requires Blanks(blanks) && (s == "" || !IsSpace(s[0]))
    ensures SkipSpaces(blanks + s) == s
    decreases |blanks|
  {
    if blanks == "" {
      assert blanks + s == s;
    } else {
      assert (blanks + s)[1..] == blanks[1..] + s;
      BlanksSkipped(blanks[1..], s);
    }
  }

  /** Behind the sign the digits count up to the first other character. */
  lemma DecimalRead(n: nat, rest: string)
    requires NoDigitFirst(rest)
    ensures var u := Decimal(n) + rest; u != "" && IsDigit(u[0]) && Digits(u, 0) == n
  {
    DecimalDigits(n);
    DigitsAppend(Decimal(n), rest, 0);
  }

  /** A number behind blanks, with or without a sign and with anything but a digit after it, is read as the value
      nearest to it that fits. */
  lemma IntegerRead(blanks: string, sign: string, n: nat, rest: string)
    requires Blanks(blanks) && sign in ["", "+", "-"] && NoDigitFirst(rest)
    ensures var v: int := n;
            ParseInteger(blanks + (sign + (Decimal(n) + rest))) == Some(Nearest(if sign == "-" then -v else v))
  {
    var u := Decimal(n) + rest;
    DecimalRead(n, rest);
    var t := sign + u;
    BlanksSkipped(blanks, t);
    assert sign != "" ==> t[1..] == u;
    assert sign == "" ==> t == u;
  }

  /** Without a digit there is no number. */
  lemma NoInteger(blanks: string, sign: string, rest: string)
    requires Blanks(blanks) && sign in ["", "+", "-"] && NoDigitFirst(rest)
    requires sign == "" && rest != "" ==> rest[0] !in "+-" && !Blanks(rest[..1])
    ensures ParseInteger(blanks + (sign + rest)) == None
  {
    var t := sign + rest;
    assert rest != "" ==> rest[..1][0] == rest[0];
    BlanksSkipped(blanks, t);
    assert sign != "" ==> t[1..] == rest;
    assert sign == "" ==> t == rest;
  }
}
