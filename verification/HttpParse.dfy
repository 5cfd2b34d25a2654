/** The resumable request parser of the server, as functions of the text posted so far and of the parser's context. */
module HttpParse {
  import opened Wrappers
  import opened HttpText

  datatype WaitState = Start | WaitRequest | WaitHeader | WaitBody | WaitLength | WaitValue | End

  datatype BodyType = NoBody | Fixed | Chunked

  datatype Field = Known(id: nat) | Unknown

  /** A header of the request; the name is kept only if the field is unknown. */
  datatype Header = Header(field: Field, name: View, value: View, parsed: bool)

  datatype Request = Request(verb: Method, path: string, version: Version, headers: seq<Header>, body: string)

  datatype Context = Context(wait: WaitState, full: nat, cur: nat, next: nat, requestLine: View, lines: seq<View>,
                             bodyType: BodyType, bodyLength: nat, bodyView: View, request: Request)

  /** The table of header names, two of its entries, and whether the values of the other fields can be parsed: None if
      not, and otherwise whether they have a type of their own. */
  datatype Tables = Tables(field: string -> Option<nat>, contentLength: nat, transferEncoding: nat,
      typed: (nat, string) -> Option<bool>)

  datatype Outcome = Success | NeedLine | NeedBody | Fatal | AssertionFails

  const INITIAL := Context(Start, 0, 0, 0, View(0, 0), [], NoBody, 0, View(0, 0), Request(Get, "", Http10, [], ""))

  /** update_ctx_to_next_clrf */
  function NextLine(post: string, c: Context): Option<Context> {
    match FindCrlf(post, c.next)
    case None => None
    case Some(i) => Some(c.(cur := c.next, next := i + 2))
  }

  /** The line that the context is at, without its CR LF. */
  function FocusLine(c: Context): View
    requires c.cur + 2 <= c.next
  {
    View(c.cur, c.next - c.cur - 2)
  }

  function Cut(post: string, from: nat, end: nat): string {
    if from <= end <= |post| then post[from..end] else ""
  }

  /** What the rest of a request line makes of a request, from its path on. */
  function WithPath(post: string, r: Request, from: nat, end: nat): Request
    requires end <= |post|
  {
    match FindChar(post, ' ', from, end)
    case None => r
    case Some(j) => r.(path := Cut(post, from, j), version := MatchVersion(Cut(post, j + 1, end)))
  }

  /** What a request line makes of a request; a missing space leaves what has not been reached as it was. */
  function WithRequestLine(post: string, r: Request, line: View): Request
    requires Inside(line, |post|)
  {
    var pos, end := line.pos, line.pos + line.len;
    match FindChar(post, ' ', pos, end)
    case None => r.(verb := UnknownMethod, version := UnknownVersion)
    case Some(i) => WithPath(post, r.(verb := MatchMethod(Cut(post, pos, i))), i + 1, end)
  }

  /** parse_request_line */
  function ParseRequestLine(post: string, c: Context): Context
    requires Inside(c.requestLine, |post|)
  {
    c.(request := WithRequestLine(post, c.request, c.requestLine))
  }

  /** http_hdr_parse_value: None if the value is not of the field's type, otherwise whether the field has one. */
  function ParseValue(t: Tables, field: Field, value: string): Option<bool> {
    if field.Unknown? then Some(false)
    else if field.id == t.contentLength then if ParseInteger(value).Some? then Some(true) else None
    else if field.id == t.transferEncoding then if value == "chunked" then Some(true) else None
    else t.typed(field.id, value)
  }

  function FieldOf(t: Tables, name: string): Field {
    match t.field(name)
    case None => Unknown
    case Some(id) => Known(id)
  }

  /** Where the value of a header line begins whose colon is at i. */
  function ValueStart(post: string, i: nat): nat {
    if i + 1 < |post| && post[i + 1] == ' ' then i + 2 else i + 1
  }

  /** The header of a line from pos to end with its colon at i. */
  function HeaderAt(t: Tables, post: string, pos: nat, i: nat, end: nat): Header {
    var name, from := View(pos, if pos <= i then i - pos else 0), ValueStart(post, i);
    var value := View(from, if from <= end then end - from else 0);
    var field := FieldOf(t, Cut(post, pos, i));
    match ParseValue(t, field, Cut(post, from, end))
    case None => Header(Unknown, name, value, false)
    case Some(parsed) => Header(field, if field.Unknown? then name else View(0, 0), value, parsed)
  }

  /** header_line_update_body_type */
  function UpdateBody(t: Tables, c: Context, h: Header, value: string): Context {
    if h.field == Known(t.contentLength) && h.parsed then
      match ParseInteger(value)
      case None => c
      case Some(n) => c.(bodyType := Fixed, bodyLength := if n < 0 then n + SIZE_LIMIT else n)
    else if h.field == Known(t.transferEncoding) && h.parsed then c.(bodyType := Chunked)
    else c
  }

  /** parse_header_line; a line without a colon is passed over. */
  function ParseHeaderLine(t: Tables, post: string, c: Context, line: View): Context
    requires Inside(line, |post|)
  {
    var end := line.pos + line.len;
    match FindChar(post, ':', line.pos, end)
    case None => c
    case Some(i) =>
      var h := HeaderAt(t, post, line.pos, i, end);
      UpdateBody(t, c.(request := c.request.(headers := c.request.headers + [h])), h,
          Cut(post, ValueStart(post, i), end))
  }

  /** The label `end`. */
  function Finish(post: string, c: Context): (Context, Outcome) {
    if c.full != c.next || c.full != |post| then (c, AssertionFails) else (c.(wait := End), Success)
  }

  /** The label `wait_fix_body`; lengths are added modulo 2^64. */
  function ReadBody(post: string, c: Context): (Context, Outcome) {
    var d := c.(wait := WaitBody, full := (c.cur + c.bodyLength) % SIZE_LIMIT);
    if d.full > |post| then (d, NeedBody)
    else if c.cur + c.bodyLength > |post| then (d.(next := d.full), AssertionFails)
    else Finish(post, d.(next := d.full, bodyView := View(c.cur, c.bodyLength), request :=
        d.request.(body := Cut(post, c.cur, d.full))))
  }

  /** After the headers. */
  function Body(post: string, c: Context, count: nat): (Context, Outcome) {
    if count == 100 then (c, Fatal)
    else
      match c.bodyType
      case NoBody => Finish(post, c.(full := c.next))
      case Fixed => ReadBody(post, c)
      case Chunked => Finish(post, c.(wait := WaitValue))
  }

  /** The label `wait_hdr`, from the count-th header line of this feed on. */
  function Headers(t: Tables, post: string, c: Context, count: nat): (Context, Outcome)
    decreases 101 - count
  {
    if count > 100 then Body(post, c, count)
    else
      match NextLine(post, c)
      case None => (c, NeedLine)
      case Some(d) =>
        if d.next == d.cur + 2 then Body(post, d.(cur := d.cur + 2), count)
        else
          Headers(t, post, ParseHeaderLine(t, post, d.(lines := d.lines + [FocusLine(d)]), FocusLine(d)), count + 1)
  }

  function AtRequestLine(d: Context): Context
    requires d.cur + 2 <= d.next
  {
    d.(wait := WaitHeader, requestLine := FocusLine(d))
  }

  function ReadRequest(t: Tables, post: string, c: Context): (Context, Outcome) {
    match NextLine(post, c)
    case None => (c.(wait := WaitRequest), NeedLine)
    case Some(d) => Headers(t, post, ParseRequestLine(post, AtRequestLine(d)), 1)
  }

  /** http_parse_feed, once the new text has been appended. */
  function Feed(t: Tables, post: string, c: Context): (Context, Outcome) {
    match c.wait
    case Start => ReadRequest(t, post, c)
    case WaitRequest => ReadRequest(t, post, c)
    case WaitHeader => Headers(t, post, c, 1)
    case WaitBody => ReadBody(post, c)
    case WaitLength => Finish(post, c.(wait := WaitValue))
    case WaitValue => Finish(post, c)
    case End => Finish(post, c)
  }

  predicate Waits(o: Outcome) {
    o == NeedLine || o == NeedBody
  }

  /** Between feeds the parser stands within the text. */
  predicate InPlace(c: Context, n: nat) {
    c.cur <= c.next <= n
  }

  lemma HeadersInPlace(t: Tables, post: string, c: Context, count: nat)
    requires InPlace(c, |post|)
    ensures Waits(Headers(t, post, c, count).1) ==> InPlace(Headers(t, post, c, count).0, |post|)
    decreases 101 - count
  {
    if count <= 100 {
      match NextLine(post, c)
      case None =>
      case Some(d) =>
        if d.next != d.cur + 2 {
          HeadersInPlace(t, post, ParseHeaderLine(t, post, d.(lines := d.lines + [FocusLine(d)]), FocusLine(d)),
              count + 1);
        }
    }
  }

  /** A feed that asks for more leaves the parser within the text. */
  lemma FeedInPlace(t: Tables, post: string, c: Context)
    requires InPlace(c, |post|)
    ensures Waits(Feed(t, post, c).1) ==> InPlace(Feed(t, post, c).0, |post|)
  {
    match c.wait
    case Start => ReadRequestInPlace(t, post, c);
    case WaitRequest => ReadRequestInPlace(t, post, c);
    case WaitHeader => HeadersInPlace(t, post, c, 1);
    case _ =>
  }

  lemma ReadRequestInPlace(t: Tables, post: string, c: Context)
    requires InPlace(c, |post|)
    ensures Waits(ReadRequest(t, post, c).1) ==> InPlace(ReadRequest(t, post, c).0, |post|)
  {
    match NextLine(post, c)
    case None =>
    case Some(d) => HeadersInPlace(t, post, ParseRequestLine(post, AtRequestLine(d)), 1);
  }

  /** The header lines from a position up to the blank line, or as many as there are. */
  function LineCount(post: string, next: nat): nat
    decreases |post| - next
  {
    match FindCrlf(post, next)
    case None => 0
    case Some(i) => if i == next then 0 else 1 + LineCount(post, i + 2)
  }

  lemma CutPrefix(a: string, t: string, from: nat, end: nat)
    requires a <= t && end <= |a|
    ensures Cut(a, from, end) == Cut(t, from, end)
  {
  }

  /** A line that is within the first part of the text is parsed alike in both. */
  lemma HeaderLinePrefix(tb: Tables, a: string, t: string, c: Context, line: View)
    requires a <= t && line.pos + line.len + 1 < |a| && a[line.pos + line.len] == '\r'
    ensures ParseHeaderLine(tb, a, c, line) == ParseHeaderLine(tb, t, c, line)
  {
    hide FieldOf, ParseValue, UpdateBody;
    var end := line.pos + line.len;
    FindCharPrefix(a, t, ':', line.pos, end);
    match FindChar(a, ':', line.pos, end)
    case None =>
    case Some(i) =>
      assert ValueStart(a, i) == ValueStart(t, i);
      CutPrefix(a, t, line.pos, i);
      CutPrefix(a, t, ValueStart(a, i), end);
  }

  lemma PathPrefix(a: string, t: string, r: Request, from: nat, end: nat)
    requires a <= t && end <= |a|
    ensures WithPath(a, r, from, end) == WithPath(t, r, from, end)
  {
    hide Cut, FindChar, MatchVersion;
    FindCharPrefix(a, t, ' ', from, end);
    match FindChar(a, ' ', from, end)
    case None =>
    case Some(j) =>
      CutPrefix(a, t, from, j);
      CutPrefix(a, t, j + 1, end);
  }

  lemma RequestLinePrefix(a: string, t: string, c: Context)
    requires a <= t && Inside(c.requestLine, |a|)
    ensures ParseRequestLine(a, c) == ParseRequestLine(t, c)
  {
    var pos, end := c.requestLine.pos, c.requestLine.pos + c.requestLine.len;
    FindCharPrefix(a, t, ' ', pos, end);
    match FindChar(a, ' ', pos, end)
    case None =>
    case Some(i) =>
      CutPrefix(a, t, pos, i);
      PathPrefix(a, t, c.request.(verb := MatchMethod(Cut(a, pos, i))), i + 1, end);
  }

  /** One header line further. */
  function Advance(tb: Tables, post: string, c: Context, d: Context): Context
    requires d.cur + 2 <= d.next <= |post|
  {
    ParseHeaderLine(tb, post, d.(lines := d.lines + [FocusLine(d)]), FocusLine(d))
  }

  lemma AdvanceFacts(tb: Tables, post: string, c: Context, d: Context)
    requires NextLine(post, c) == Some(d)
    ensures d.cur + 2 <= d.next <= |post| && Advance(tb, post, c, d).next == d.next
        && Advance(tb, post, c, d).wait == c.wait
    ensures LineCount(post, c.next) == if d.next == d.cur + 2 then 0 else 1 + LineCount(post, d.next)
  {
  }

  lemma HeadersStep(tb: Tables, post: string, c: Context, d: Context, count: nat)
    requires count <= 100 && NextLine(post, c) == Some(d) && d.cur + 2 < d.next
    ensures Headers(tb, post, c, count) == Headers(tb, post, Advance(tb, post, c, d), count + 1)
  {
  }

  lemma AdvancePrefix(tb: Tables, a: string, t: string, c: Context, d: Context)
    requires a <= t && NextLine(a, c) == Some(d)
    ensures NextLine(t, c) == Some(d) && Advance(tb, a, c, d) == Advance(tb, t, c, d)
  {
    FindCrlfPrefix(a, t, c.next);
    HeaderLinePrefix(tb, a, t, d.(lines := d.lines + [FocusLine(d)]), FocusLine(d));
  }

  /** Within the limit it does not matter how many header lines this feed has already read. */
  lemma {:induction false} CountIrrelevant(tb: Tables, post: string, c: Context, m: nat, n: nat)
    requires m + LineCount(post, c.next) <= 99 && n + LineCount(post, c.next) <= 99
    ensures Headers(tb, post, c, m) == Headers(tb, post, c, n)
    decreases LineCount(post, c.next)
  {
    match NextLine(post, c)
    case None =>
    case Some(d) =>
      AdvanceFacts(tb, post, c, d);
      if d.next != d.cur + 2 {
        CountIrrelevant(tb, post, Advance(tb, post, c, d), m + 1, n + 1);
      }
  }

  /** If the first part of a text leaves the headers wanting more, the rest goes on as if the text had come at once. */
  lemma {:induction false} HeadersSplit(tb: Tables, a: string, t: string, c: Context, count: nat)
    requires a <= t && 1 <= count && count + LineCount(t, c.next) <= 99 && c.wait == WaitHeader
    requires Waits(Headers(tb, a, c, count).1)
    ensures var r := Headers(tb, a, c, count).0;
            && (r.wait == WaitBody || (r.wait == WaitHeader && LineCount(t, r.next) <= LineCount(t, c.next)))
            && Feed(tb, t, r) == Headers(tb, t, c, count)
    decreases LineCount(t, c.next)
  {
    match NextLine(a, c)
    case None => CountIrrelevant(tb, t, c, 1, count);
    case Some(d) =>
      AdvancePrefix(tb, a, t, c, d);
      AdvanceFacts(tb, t, c, d);
      if d.next != d.cur + 2 {
        HeadersSplit(tb, a, t, Advance(tb, a, c, d), count + 1);
      }
  }

  /** At most 98 header lines are still to come; with more the code loses count. */
  predicate HeaderLimit(t: string, c: Context) {
    match c.wait
    case WaitHeader => LineCount(t, c.next) <= 98
    case WaitBody => true
    case _ => match NextLine(t, c) case None => true case Some(d) => LineCount(t, d.next) <= 98
  }

  predicate Resumable(c: Context) {
    c.wait == Start || c.wait == WaitRequest || c.wait == WaitHeader || c.wait == WaitBody
  }

  /** Whether the request line is waited for is forgotten once it has been found. */
  lemma WaitForgotten(tb: Tables, t: string, c: Context)
    ensures ReadRequest(tb, t, c.(wait := WaitRequest)) == ReadRequest(tb, t, c)
  {
    match NextLine(t, c)
    case None =>
    case Some(d) =>
      assert NextLine(t, c.(wait := WaitRequest)).value == d.(wait := WaitRequest);
      assert AtRequestLine(d.(wait := WaitRequest)) == AtRequestLine(d);
  }

  /** With its request line found, a request goes on to its headers, alike in a text and in a longer one. */
  lemma LineRead(tb: Tables, a: string, t: string, c: Context, d: Context) returns (e: Context)
    requires a <= t && NextLine(a, c) == Some(d)
    ensures NextLine(t, c) == Some(d) && d.cur + 2 <= d.next <= |a|
    ensures e.next == d.next && e.wait == WaitHeader
    ensures ReadRequest(tb, a, c) == Headers(tb, a, e, 1) && ReadRequest(tb, t, c) == Headers(tb, t, e, 1)
  {
    FindCrlfPrefix(a, t, c.next);
    RequestLinePrefix(a, t, AtRequestLine(d));
    e := ParseRequestLine(a, AtRequestLine(d));
  }

  lemma RequestSplit(tb: Tables, a: string, t: string, c: Context)
    requires a <= t && (c.wait == Start || c.wait == WaitRequest) && HeaderLimit(t, c) && Waits(ReadRequest(tb, a, c).1)
    ensures var r := ReadRequest(tb, a, c).0;
        Resumable(r) && HeaderLimit(t, r)
        && Feed(tb, t, r) == ReadRequest(tb, t, c)
  {
    match NextLine(a, c)
    case None =>
      WaitForgotten(tb, t, c);
    case Some(d) =>
      var e := LineRead(tb, a, t, c, d);
      HeadersSplit(tb, a, t, e, 1);
  }

  /** If the first part of a text leaves the parser wanting more, the rest goes on as if the text had come at once. */
  lemma FeedSplit(tb: Tables, a: string, t: string, c: Context)
    requires a <= t && Resumable(c) && HeaderLimit(t, c) && Waits(Feed(tb, a, c).1)
    ensures var r := Feed(tb, a, c).0; Resumable(r) && HeaderLimit(t, r) && Feed(tb, t, r) == Feed(tb, t, c)
  {
    match c.wait
    case Start => RequestSplit(tb, a, t, c);
    case WaitRequest => RequestSplit(tb, a, t, c);
    case WaitHeader => HeadersSplit(tb, a, t, c, 1);
    case _ =>
  }

  lemma BodyWaits(a: string, t: string, c: Context, count: nat)
    requires a <= t && |a| < |t| && c.next <= |a| && Body(t, c, count).1 == Success
    ensures Waits(Body(a, c, count).1)
  {
  }

  lemma {:induction false} HeadersWait(tb: Tables, a: string, t: string, c: Context, count: nat)
    requires a <= t && |a| < |t| && c.next <= |a| && Headers(tb, t, c, count).1 == Success
    ensures Waits(Headers(tb, a, c, count).1)
    decreases 101 - count
  {
    if count > 100 {
      BodyWaits(a, t, c, count);
    } else {
      match NextLine(a, c)
      case None =>
      case Some(d) =>
        AdvancePrefix(tb, a, t, c, d);
        AdvanceFacts(tb, a, c, d);
        if d.next == d.cur + 2 {
          BodyWaits(a, t, d.(cur := d.cur + 2), count);
        } else {
          HeadersWait(tb, a, t, Advance(tb, a, c, d), count + 1);
        }
    }
  }

  lemma RequestWaits(tb: Tables, a: string, t: string, c: Context)
    requires a <= t && |a| < |t| && c.next <= |a| && ReadRequest(tb, t, c).1 == Success
    ensures Waits(ReadRequest(tb, a, c).1)
  {
    match NextLine(a, c)
    case None =>
    case Some(d) =>
      var e := LineRead(tb, a, t, c, d);
      HeadersWait(tb, a, t, e, 1);
  }

  /** A proper part of a complete request asks for more. */
  lemma PartWaits(tb: Tables, a: string, t: string, c: Context)
    requires a <= t && |a| < |t| && c.next <= |a| && Resumable(c) && Feed(tb, t, c).1 == Success
    ensures Waits(Feed(tb, a, c).1)
  {
    match c.wait
    case Start => RequestWaits(tb, a, t, c);
    case WaitRequest => RequestWaits(tb, a, t, c);
    case WaitHeader => HeadersWait(tb, a, t, c, 1);
    case _ =>
  }

  function Joined(chunks: seq<string>): string {
    if chunks == [] then "" else chunks[0] + Joined(chunks[1..])
  }

  /** The outcomes of feeding the chunks one after the other, and the context after the last. */
  function FeedAll(tb: Tables, post: string, c: Context, chunks: seq<string>): (Context, seq<Outcome>)
    decreases |chunks|
  {
    if chunks == [] then (c, [])
    else
      var r := Feed(tb, post + chunks[0], c);
      var rest := FeedAll(tb, post + chunks[0], r.0, chunks[1..]);
      (rest.0, [r.1] + rest.1)
  }

  lemma FirstChunk(tb: Tables, post: string, c: Context, chunk: string, rest: string)
    requires rest != "" && InPlace(c, |post|) && Resumable(c)
    requires HeaderLimit(post + chunk + rest, c) && Feed(tb, post + chunk + rest, c).1 == Success
    ensures var r, t := Feed(tb, post + chunk, c), post + chunk + rest;
            && Waits(r.1) && InPlace(r.0, |post + chunk|) && Resumable(r.0) && HeaderLimit(t, r.0)
            && Feed(tb, t, r.0) == Feed(tb, t, c)
  {
    var a, t := post + chunk, post + chunk + rest;
    assert a <= t;
    FeedInPlace(tb, a, c);
    PartWaits(tb, a, t, c);
    FeedSplit(tb, a, t, c);
  }

  /** The last feed completes the request, and all before it ask for more. */
  predicate LastCompletes(outcomes: seq<Outcome>) {
    outcomes != [] && outcomes[|outcomes| - 1] == Success && forall i :: 0 <= i < |outcomes| - 1 ==> Waits(outcomes[i])
  }

  lemma LastCompletesMore(o: Outcome, rest: seq<Outcome>)
    requires Waits(o) && LastCompletes(rest)
    ensures LastCompletes([o] + rest)
  {
  }

  /** A complete request in any chunks leaves the context that it leaves in one piece; all feeds before the last ask
      for more. */
  lemma {:induction false} AnyChunks(tb: Tables, post: string, c: Context, chunks: seq<string>)
    requires chunks != [] && (forall i :: 0 <= i < |chunks| ==> chunks[i] != "")
    requires InPlace(c, |post|) && Resumable(c)
    requires HeaderLimit(post + Joined(chunks), c) && Feed(tb, post + Joined(chunks), c).1 == Success
    ensures var r := FeedAll(tb, post, c, chunks);
            r.0 == Feed(tb, post + Joined(chunks), c).0 && |r.1| == |chunks| && LastCompletes(r.1)
    decreases |chunks|
  {
    var a, rest := post + chunks[0], chunks[1..];
    assert post + (chunks[0] + Joined(rest)) == a + Joined(rest);
    if |chunks| == 1 {
      assert a + Joined(rest) == a;
    } else {
      assert rest[0] == chunks[1] != "";
      FirstChunk(tb, post, c, chunks[0], Joined(rest));
      var r := Feed(tb, a, c);
      AnyChunks(tb, a, r.0, rest);
      LastCompletesMore(r.1, FeedAll(tb, a, r.0, rest).1);
    }
  }

  /** The header lines end with a blank line. */
  predicate Terminated(post: string, next: nat)
    decreases |post| - next
  {
    match FindCrlf(post, next)
    case None => false
    case Some(i) => i == next || Terminated(post, i + 2)
  }

  /** Where the code loses count: exactly 99 header lines in one feed are refused. */
  lemma {:induction false} NinetyNineLines(tb: Tables, post: string, c: Context, count: nat)
    requires Terminated(post, c.next) && count + LineCount(post, c.next) == 100
    ensures Headers(tb, post, c, count).1 == Fatal
    decreases LineCount(post, c.next)
  {
    match NextLine(post, c)
    case None =>
    case Some(d) =>
      AdvanceFacts(tb, post, c, d);
      if d.next != d.cur + 2 {
        NinetyNineLines(tb, post, Advance(tb, post, c, d), count + 1);
      }
  }

  /** A negative Content-Length is never satisfied, however much text follows. */
  lemma NegativeLength(post: string, c: Context, n: int)
    requires c.cur <= |post| <= INT64_MAX && -INT64_MAX - 1 <= n < 0 && c.bodyLength == n + 0x1_0000_0000_0000_0000
    ensures ReadBody(post, c).1 == if c.cur + n < 0 then NeedBody else AssertionFails
  {
  }

  /** A request as text: its line, its headers, a blank line and the body. */
  datatype Source = Source(verb: string, path: string, version: string, headers: seq<(string, string)>, body: string)

  const CRLF := "\r\n"

  function HeaderLine(h: (string, string)): string {
    h.0 + ": " + h.1
  }

  function RenderHeaders(hs: seq<(string, string)>): string {
    if hs == [] then "" else HeaderLine(hs[0]) + CRLF + RenderHeaders(hs[1..])
  }

  function RequestLine(src: Source): string {
    src.verb + " " + src.path + " " + src.version
  }

  function Render(src: Source): string {
    RequestLine(src) + CRLF + (RenderHeaders(src.headers) + CRLF + src.body)
  }

  predicate Free(s: string, c: char) {
    forall i :: 0 <= i < |s| ==> s[i] != c
  }

  predicate SoundHeader(h: (string, string)) {
    Free(h.0, ':') && Free(h.0, '\r') && Free(h.1, '\r')
  }

  /** What the headers say of the body: nothing, its length, or that it comes in chunks. */
  datatype Announced = Nothing | Length(n: int) | Chunks

  /** The last header that says anything of the body counts. */
  function AnnouncedBy(tb: Tables, hs: seq<(string, string)>, before: Announced): Announced
    decreases |hs|
  {
    if hs == [] then before else AnnouncedBy(tb, hs[1..], AnnouncedAfter(tb, hs[0], before))
  }

  function AnnouncedAfter(tb: Tables, h: (string, string), before: Announced): Announced {
    if tb.field(h.0) == Some(tb.contentLength) && ParseInteger(h.1).Some? then Length(ParseInteger(h.1).value)
    else if tb.field(h.0) == Some(tb.transferEncoding) && h.1 == "chunked" then Chunks
    else before
  }

  /** Separators stand only where they belong, and the text is one that the code can address. */
  predicate Sound(tb: Tables, src: Source) {
    && Free(src.verb, ' ') && Free(src.path, ' ')
    && Free(src.verb, '\r') && Free(src.path, '\r') && Free(src.version, '\r')
    && (forall i :: 0 <= i < |src.headers| ==> SoundHeader(src.headers[i]))
    && tb.contentLength != tb.transferEncoding && |Render(src)| < SIZE_LIMIT
  }

  /** The text can be read back: it is sound, and the headers announce the body that it has. */
  predicate Readable(tb: Tables, src: Source) {
    Sound(tb, src) && Fits(AnnouncedBy(tb, src.headers, Nothing), src.body)
  }

  /** The field is the one that the table has for the name, unless the value is not of the field's type: a length is a
      number, an encoding is "chunked", and what the other fields take is a parameter. */
  predicate SaysField(tb: Tables, h: Header, s: (string, string)) {
    match tb.field(s.0)
    case None => h.field == Unknown && !h.parsed
    case Some(id) =>
      if id == tb.contentLength then if ParseInteger(s.1).Some? then h.field == Known(id) && h.parsed
        else h.field == Unknown && !h.parsed
      else if id == tb.transferEncoding then if s.1 == "chunked" then h.field == Known(id) && h.parsed
        else h.field == Unknown && !h.parsed
      else
        match tb.typed(id, s.1)
        case None => h.field == Unknown && !h.parsed
        case Some(parsed) => h.field == Known(id) && h.parsed == parsed
  }

  /** A header of the context says what the source's header says. */
  predicate SaysHeader(tb: Tables, post: string, h: Header, s: (string, string)) {
    && Inside(h.value, |post|) && Text(post, h.value) == s.1
    && SaysField(tb, h, s)
    && (h.field == Unknown ==> Inside(h.name, |post|) && Text(post, h.name) == s.0)
  }

  /** A line in the text and what follows it. */
  lemma LineAt(post: string, p: nat, line: string, rest: string)
    requires p <= |post| && post[p..] == line + CRLF + rest && Free(line, '\r')
    ensures p + |line| + 2 <= |post| && FindCrlf(post, p) == Some(p + |line|)
    ensures post[p..p + |line|] == line && post[p + |line| + 2..] == rest && post[p + |line|] == '\r'
  {
    var tail := post[p..];
    assert |tail| == |line| + 2 + |rest|;
    assert forall i :: 0 <= i < |line| ==> post[p + i] == tail[i] == line[i];
    assert post[p + |line|] == tail[|line|] == '\r' && post[p + |line| + 1] == tail[|line| + 1] == '\n';
    FindCrlfIs(post, p, p + |line|);
  }

  /** A header line in the text is read as the header it was made from. */
  lemma HeaderRead(tb: Tables, post: string, p: nat, h: (string, string), rest: string)
    requires p <= |post| && post[p..] == HeaderLine(h) + CRLF + rest && SoundHeader(h)
    ensures p + |HeaderLine(h)| + 2 <= |post|
    ensures FindChar(post, ':', p, p + |HeaderLine(h)|) == Some(p + |h.0|)
    ensures Cut(post, ValueStart(post, p + |h.0|), p + |HeaderLine(h)|) == h.1
    ensures SaysHeader(tb, post, HeaderAt(tb, post, p, p + |h.0|, p + |HeaderLine(h)|), h)
  {
    hide *;
    var line, i, end := HeaderLine(h), p + |h.0|, p + |HeaderLine(h)|;
    SoundLine(h);
    LineAt(post, p, line, rest);
    LineParts(post, p, h);
    FindCharIs(post, ':', p, end, i);
    ValueAt(post, p, i, end);
    HeaderAtSays(tb, post, p, i, end, h);
  }

  lemma SoundLine(h: (string, string))
    requires SoundHeader(h)
    ensures Free(HeaderLine(h), '\r') && |h.0| < |HeaderLine(h)| && Free(h.0, ':')
  {
  }

  lemma ValueAt(post: string, p: nat, i: nat, end: nat)
    requires p <= i && i + 2 <= end <= |post| && post[i + 1] == ' '
    ensures ValueStart(post, i) == i + 2 && Cut(post, p, i) == post[p..i] && Cut(post, i + 2, end) == post[i + 2..end]
  {
  }

  lemma HeaderAtSays(tb: Tables, post: string, p: nat, i: nat, end: nat, h: (string, string))
    requires p <= i && i + 2 <= end <= |post| && ValueStart(post, i) == i + 2 && Cut(post, p, i) == h.0
        && Cut(post, i + 2, end) == h.1
    ensures SaysHeader(tb, post, HeaderAt(tb, post, p, i, end), h)
  {
    hide ParseInteger;
  }

  lemma LineParts(post: string, p: nat, h: (string, string))
    requires p + |HeaderLine(h)| <= |post| && post[p..p + |HeaderLine(h)|] == HeaderLine(h) && Free(h.0, ':')
    ensures var i, end := p + |h.0|, p + |HeaderLine(h)|;
            && post[i] == ':' && post[i + 1] == ' ' && i + 2 <= end && (forall k :: p <= k < i ==> post[k] != ':')
            && post[p..i] == h.0 && post[i + 2..end] == h.1
  {
    var line := HeaderLine(h);
    assert forall k :: 0 <= k < |line| ==> post[p + k] == post[p..p + |line|][k] == line[k];
    assert post[p..p + |h.0|] == line[..|h.0|] == h.0;
    assert post[p + |h.0| + 2..p + |line|] == line[|h.0| + 2..] == h.1;
  }

  /** What the header lines read so far have made of the body. */
  predicate BodyKnown(c: Context, what: Announced) {
    && c.full == 0
    && match what
       case Nothing => c.bodyType == NoBody
       case Length(n) => c.bodyType == Fixed && c.bodyLength == Unsigned(n)
       case Chunks => c.bodyType == Chunked
  }

  /** A number of 64 bits taken for an unsigned one. */
  function Unsigned(n: int): int {
    if n < 0 then n + 0x1_0000_0000_0000_0000 else n
  }

  /** A header whose value is kept changes what is known of the body as its source says. */
  lemma UpdateBodyKnown(tb: Tables, post: string, c: Context, h: Header, s: (string, string), before: Announced)
    requires BodyKnown(c, before) && SaysHeader(tb, post, h, s) && tb.contentLength != tb.transferEncoding
    ensures BodyKnown(UpdateBody(tb, c, h, s.1), AnnouncedAfter(tb, s, before))
  {
    IntegerRange(s.1);
  }

  lemma UpdateBodyOnly(tb: Tables, c: Context, h: Header, value: string)
    ensures var e := UpdateBody(tb, c, h, value); e.next == c.next && e.wait == c.wait && e.request == c.request
  {
    IntegerRange(value);
  }

  /** From c to e one header has been read, and nothing else of the request has changed. */
  predicate HeaderAdded(c: Context, e: Context, h: Header) {
    && e.request.verb == c.request.verb && e.request.path == c.request.path && e.request.version == c.request.version
        && e.request.body == c.request.body
    && e.request.headers == c.request.headers + [h]
  }

  /** One header line of a rendered request. */
  lemma HeaderRendered(tb: Tables, post: string, c: Context, h: (string, string), rest: string, before: Announced)
      returns (said: Header)
    requires c.next <= |post| && post[c.next..] == HeaderLine(h) + CRLF + rest && SoundHeader(h)
    requires tb.contentLength != tb.transferEncoding && BodyKnown(c, before)
    ensures NextLine(post, c).Some?
    ensures var d := NextLine(post, c).value; d.cur + 2 < d.next <= |post|
    ensures var d := NextLine(post, c).value;
            var e := Advance(tb, post, c, d);
            && e.next == d.next && post[e.next..] == rest && e.wait == c.wait
            && BodyKnown(e, AnnouncedAfter(tb, h, before))
            && HeaderAdded(c, e, said) && SaysHeader(tb, post, said, h)
  {
    hide *;
    var d := NextHeader(post, c, h, rest);
    HeaderRead(tb, post, c.next, h, rest);
    said := HeaderAt(tb, post, d.cur, c.next + |h.0|, d.next - 2);
    AdvanceSays(tb, post, c, d, c.next + |h.0|, said, h, before);
  }

  lemma NextHeader(post: string, c: Context, h: (string, string), rest: string) returns (d: Context)
    requires c.next <= |post| && post[c.next..] == HeaderLine(h) + CRLF + rest && SoundHeader(h)
    ensures NextLine(post, c) == Some(d) && d == c.(cur := c.next, next := c.next + |HeaderLine(h)| + 2)
        && |HeaderLine(h)| > 0
    ensures d.next <= |post| && post[d.next..] == rest
  {
    var line := HeaderLine(h);
    assert Free(line, '\r');
    LineAt(post, c.next, line, rest);
    d := NextLine(post, c).value;
  }

  lemma AdvanceSays(tb: Tables, post: string, c: Context, d: Context, i: nat, said: Header, h: (string, string),
      before: Announced)
    requires d.cur + 2 <= d.next <= |post| && FindChar(post, ':', d.cur, d.next - 2) == Some(i)
    requires d == c.(cur := d.cur, next := d.next) && said == HeaderAt(tb, post, d.cur, i, d.next - 2)
    requires SaysHeader(tb, post, said, h) && Cut(post, ValueStart(post, i), d.next - 2) == h.1
    requires tb.contentLength != tb.transferEncoding && BodyKnown(c, before)
    ensures var e := Advance(tb, post, c, d);
            && e.next == d.next && e.wait == c.wait && BodyKnown(e, AnnouncedAfter(tb, h, before))
            && HeaderAdded(c, e, said)
  {
    AdvanceIs(tb, post, c, d, i);
    var e := d.(lines := d.lines + [FocusLine(d)], request := d.request.(headers := d.request.headers + [said]));
    UpdateBodyKnown(tb, post, e, said, h, before);
    UpdateBodyOnly(tb, e, said, h.1);
  }

  lemma AdvanceIs(tb: Tables, post: string, c: Context, d: Context, i: nat)
    requires d.cur + 2 <= d.next <= |post| && FindChar(post, ':', d.cur, d.next - 2) == Some(i)
    ensures var h := HeaderAt(tb, post, d.cur, i, d.next - 2);
            Advance(tb, post, c, d)
            == UpdateBody(tb, d.(lines := d.lines + [FocusLine(d)], request :=
                d.request.(headers := d.request.headers + [h])), h,
                          Cut(post, ValueStart(post, i), d.next - 2))
  {
    hide UpdateBody, HeaderAt, Cut, ValueStart, FindChar;
  }

  lemma IntegerRange(s: string)
    ensures ParseInteger(s).Some? ==> -INT64_MAX - 1 <= ParseInteger(s).value <= INT64_MAX
  {
  }

  /** From c to d the headers hs have been read, and nothing else of the request has changed. */
  predicate HeadersRead(tb: Tables, post: string, c: Context, d: Context, hs: seq<(string, string)>) {
    && d.request.verb == c.request.verb && d.request.path == c.request.path && d.request.version == c.request.version
        && d.request.body == c.request.body
    && |d.request.headers| == |c.request.headers| + |hs| && d.request.headers[..|c.request.headers|]
        == c.request.headers
    && forall i :: 0 <= i < |hs| ==> SaysHeader(tb, post, d.request.headers[|c.request.headers| + i], hs[i])
  }

  lemma HeadersReadNone(tb: Tables, post: string, c: Context, d: Context, hs: seq<(string, string)>,
      before: Announced)
    requires hs == [] && d.request == c.request && d.bodyType == c.bodyType && d.bodyLength == c.bodyLength
        && d.full == c.full
    ensures HeadersRead(tb, post, c, d, hs) && AnnouncedBy(tb, hs, before) == before
        && BodyKnown(d, before) == BodyKnown(c, before)
  {
  }

  lemma AnnouncedMore(tb: Tables, hs: seq<(string, string)>, before: Announced)
    requires hs != []
    ensures AnnouncedBy(tb, hs, before) == AnnouncedBy(tb, hs[1..], AnnouncedAfter(tb, hs[0], before))
  {
  }

  lemma HeadersReadMore(tb: Tables, post: string, c: Context, e: Context, d: Context, h: Header,
      hs: seq<(string, string)>)
    requires hs != [] && HeaderAdded(c, e, h) && SaysHeader(tb, post, h, hs[0]) && HeadersRead(tb, post, e, d, hs[1..])
    ensures HeadersRead(tb, post, c, d, hs)
  {
    var n := |c.request.headers|;
    assert d.request.headers[..n] == d.request.headers[..n + 1][..n];
    assert e.request.headers[n] == d.request.headers[..n + 1][n];
    forall i | 0 <= i < |hs| ensures SaysHeader(tb, post, d.request.headers[n + i], hs[i]) {
      if i > 0 {
        assert hs[i] == hs[1..][i - 1];
      }
    }
  }

  /** What is left of a rendered request whose headers agree with its body. */
  predicate Remaining(tb: Tables, post: string, c: Context, hs: seq<(string, string)>, body: string,
      before: Announced) {
    && c.next <= |post| < SIZE_LIMIT && post[c.next..] == RenderHeaders(hs) + CRLF + body
    && (forall i :: 0 <= i < |hs| ==> SoundHeader(hs[i]))
    && tb.contentLength != tb.transferEncoding && BodyKnown(c, before)
  }

  predicate Fits(what: Announced, body: string) {
    match what
    case Nothing => body == ""
    case Length(n) => Unsigned(n) == |body|
    case Chunks => false
  }

  /** One header of a rendered request. */
  lemma RemainingStep(tb: Tables, post: string, c: Context, hs: seq<(string, string)>, body: string,
      before: Announced, count: nat)
      returns (e: Context, h: Header)
    requires Remaining(tb, post, c, hs, body, before) && hs != [] && count <= 100
    ensures Remaining(tb, post, e, hs[1..], body, AnnouncedAfter(tb, hs[0], before)) && e.cur + 2 <= e.next
    ensures HeaderAdded(c, e, h) && SaysHeader(tb, post, h, hs[0])
    ensures Headers(tb, post, c, count) == Headers(tb, post, e, count + 1)
    ensures LineCount(post, c.next) == 1 + LineCount(post, e.next)
  {
    hide ParseInteger, UpdateBody, ParseValue, HeaderAt, SaysHeader, HeaderAdded, BodyKnown, SoundHeader;
    var rest := RenderHeaders(hs[1..]) + CRLF + body;
    assert RenderHeaders(hs) + CRLF + body == HeaderLine(hs[0]) + CRLF + rest;
    h := HeaderRendered(tb, post, c, hs[0], rest, before);
    var d := NextLine(post, c).value;
    e := Advance(tb, post, c, d);
    AdvanceCur(tb, post, c, d);
    AdvanceFacts(tb, post, c, d);
    HeadersStep(tb, post, c, d, count);
  }

  lemma AdvanceCur(tb: Tables, post: string, c: Context, d: Context)
    requires d.cur + 2 <= d.next <= |post|
    ensures Advance(tb, post, c, d).cur == d.cur
  {
  }

  /** The blank line behind the headers of a rendered request. */
  lemma RemainingEnd(tb: Tables, post: string, c: Context, body: string, before: Announced, count: nat)
      returns (d: Context)
    requires Remaining(tb, post, c, [], body, before) && count <= 100
    ensures Headers(tb, post, c, count) == Body(post, d, count)
    ensures d == c.(cur := c.next + 2, next := c.next + 2) && d.next <= |post| && post[d.next..] == body
        && BodyKnown(c, before)
    ensures LineCount(post, c.next) == 0
  {
    hide ParseInteger, UpdateBody, ParseValue, HeaderAt, ParseHeaderLine, Body;
    assert RenderHeaders([]) + CRLF + body == "" + CRLF + body;
    LineAt(post, c.next, "", body);
    d := NextLine(post, c).value;
    AdvanceFacts(tb, post, c, d);
    d := d.(cur := d.cur + 2);
  }

  /** The header lines and the blank line of a rendered request. */
  lemma {:induction false} HeadersRendered(tb: Tables, post: string, c: Context, hs: seq<(string, string)>,
      body: string, before: Announced, count: nat)
      returns (d: Context)
    requires Remaining(tb, post, c, hs, body, before) && count + |hs| <= 100
    ensures Headers(tb, post, c, count) == Body(post, d, count + |hs|)
    ensures HeadersRead(tb, post, c, d, hs) && BodyKnown(d, AnnouncedBy(tb, hs, before))
    ensures 0 < d.cur == d.next <= |post| && post[d.next..] == body && LineCount(post, c.next) == |hs|
    decreases |hs|
  {
    hide *;
    if hs == [] {
      d := RemainingEnd(tb, post, c, body, before, count);
      HeadersReadNone(tb, post, c, d, hs, before);
    } else {
      var e, h := RemainingStep(tb, post, c, hs, body, before, count);
      d := HeadersRendered(tb, post, e, hs[1..], body, AnnouncedAfter(tb, hs[0], before), count + 1);
      HeadersReadMore(tb, post, c, e, d, h, hs);
      AnnouncedMore(tb, hs, before);
    }
  }

  /** The request line of a rendered request. */
  lemma RequestLineRendered(post: string, c: Context, src: Source, rest: string)
    requires post == RequestLine(src) + CRLF + rest && c.next == 0
    requires Free(src.verb, ' ') && Free(src.path, ' ') && Free(src.verb, '\r') && Free(src.path, '\r')
        && Free(src.version, '\r')
    ensures NextLine(post, c).Some?
    ensures var d := NextLine(post, c).value;
            && d.cur == 0 && d.next == |RequestLine(src)| + 2 <= |post| && post[d.next..] == rest
            && var e := ParseRequestLine(post, AtRequestLine(d));
               && e.request == c.request.(verb := MatchMethod(src.verb), path := src.path, version :=
                   MatchVersion(src.version))
               && e.next == d.next && e.wait == WaitHeader && e.bodyType == c.bodyType && e.full == c.full
  {
    hide *;
    var line := RequestLine(src);
    RequestLineFree(src);
    assert post[0..] == line + CRLF + rest;
    LineAt(post, 0, line, rest);
    assert line <= post by {
      assert post[0..0 + |line|] == line;
    }
    RequestLineParts(post, c.request, src);
    AtLine(post, c, |line|);
  }

  lemma RequestLineFree(src: Source)
    requires Free(src.verb, '\r') && Free(src.path, '\r') && Free(src.version, '\r')
    ensures Free(RequestLine(src), '\r')
  {
  }

  /** The request line up to the line end at n is parsed. */
  lemma AtLine(post: string, c: Context, n: nat)
    requires c.next == 0 && FindCrlf(post, 0) == Some(n) && n <= |post|
    ensures NextLine(post, c) == Some(c.(cur := 0, next := n + 2))
    ensures ParseRequestLine(post, AtRequestLine(c.(cur := 0, next := n + 2)))
        == c.(cur := 0, next := n + 2, wait := WaitHeader, requestLine := View(0, n),
              request := WithRequestLine(post, c.request, View(0, n)))
  {
    hide WithRequestLine;
  }

  lemma RequestLineParts(post: string, r: Request, src: Source)
    requires RequestLine(src) <= post && Free(src.verb, ' ') && Free(src.path, ' ')
    ensures WithRequestLine(post, r, View(0, |RequestLine(src)|))
            == r.(verb := MatchMethod(src.verb), path := src.path, version := MatchVersion(src.version))
  {
    hide *;
    RequestLineSpaces(post, src);
    RequestLineCuts(post, src);
    WithRequestLineIs(post, r, |RequestLine(src)|, |src.verb|, |src.verb| + 1 + |src.path|);
  }

  lemma WithRequestLineIs(post: string, r: Request, end: nat, i: nat, j: nat)
    requires end <= |post| && FindChar(post, ' ', 0, end) == Some(i) && FindChar(post, ' ', i + 1, end) == Some(j)
    ensures WithRequestLine(post, r, View(0, end))
            == r.(verb := MatchMethod(Cut(post, 0, i)), path := Cut(post, i + 1, j), version :=
                MatchVersion(Cut(post, j + 1, end)))
  {
    hide MatchMethod, MatchVersion, Cut, FindChar;
  }

  lemma RequestLineSpaces(post: string, src: Source)
    requires RequestLine(src) <= post && Free(src.verb, ' ') && Free(src.path, ' ')
    ensures FindChar(post, ' ', 0, |RequestLine(src)|) == Some(|src.verb|)
    ensures FindChar(post, ' ', |src.verb| + 1, |RequestLine(src)|) == Some(|src.verb| + 1 + |src.path|)
  {
    var line, i, j := RequestLine(src), |src.verb|, |src.verb| + 1 + |src.path|;
    assert forall k :: 0 <= k < |line| ==> post[k] == line[k];
    FindCharIs(post, ' ', 0, |line|, i);
    FindCharIs(post, ' ', i + 1, |line|, j);
  }

  lemma RequestLineCuts(post: string, src: Source)
    requires RequestLine(src) <= post
    ensures |src.verb| + 1 + |src.path| < |RequestLine(src)| <= |post|
    ensures var i, j, end := |src.verb|, |src.verb| + 1 + |src.path|, |RequestLine(src)|;
            Cut(post, 0, i) == src.verb && Cut(post, i + 1, j) == src.path && Cut(post, j + 1, end) == src.version
  {
    var line, i, j := RequestLine(src), |src.verb|, |src.verb| + 1 + |src.path|;
    assert post[..|line|] == line;
    assert post[0..i] == line[..i] == src.verb;
    assert post[i + 1..j] == line[i + 1..j] == src.path;
    assert post[j + 1..|line|] == line[j + 1..] == src.version;
  }

  /** What a parsed request says is what its text was rendered from. */
  predicate SaysRequest(tb: Tables, post: string, r: Request, src: Source) {
    && NamesMethod(src.verb, r.verb) && r.path == src.path && NamesVersion(src.version, r.version) && r.body == src.body
    && |r.headers| == |src.headers|
    && forall i :: 0 <= i < |src.headers| ==> SaysHeader(tb, post, r.headers[i], src.headers[i])
  }

  /** A request line without a space leaves the method and the version unknown, and the path as it was. */
  lemma OneWordLine(post: string, r: Request, word: string)
    requires word <= post && Free(word, ' ')
    ensures var q := WithRequestLine(post, r, View(0, |word|));
            q == r.(verb := UnknownMethod, version := UnknownVersion)
  {
    FindCharNone(post, ' ', 0, |word|);
  }

  /** A request line with one space has a method only; path and version stay as they were. */
  lemma TwoWordLine(post: string, r: Request, verb: string, path: string)
    requires verb + " " + path <= post && Free(verb, ' ') && Free(path, ' ')
    ensures var q := WithRequestLine(post, r, View(0, |verb| + 1 + |path|));
            NamesMethod(verb, q.verb) && q == r.(verb := q.verb)
  {
    var line := verb + " " + path;
    assert forall k :: 0 <= k < |line| ==> post[k] == line[k];
    FindCharIs(post, ' ', 0, |line|, |verb|);
    FindCharNone(post, ' ', |verb| + 1, |line|);
    assert post[0..|verb|] == verb;
    MethodNamed(verb, MatchMethod(verb));
  }

  /** A header line without a colon is passed over. */
  lemma NoColon(tb: Tables, post: string, c: Context, line: View)
    requires Inside(line, |post|) && Free(Text(post, line), ':')
    ensures ParseHeaderLine(tb, post, c, line) == c
  {
    assert forall k :: line.pos <= k < line.pos + line.len ==> post[k] == Text(post, line)[k - line.pos];
    FindCharNone(post, ':', line.pos, line.pos + line.len);
  }

  /** The space behind the colon may be missing. */
  lemma TightHeader(tb: Tables, post: string, c: Context, p: nat, h: (string, string))
      returns (said: Header)
    requires p + |h.0| + 1 + |h.1| + 1 < |post| && post[p..p + |h.0| + 1 + |h.1|] == h.0 + ":" + h.1
    requires post[p + |h.0| + 1 + |h.1|] == '\r' && Free(h.0, ':') && (h.1 != "" ==> h.1[0] != ' ')
    ensures SaysHeader(tb, post, said, h)
    ensures ParseHeaderLine(tb, post, c, View(p, |h.0| + 1 + |h.1|)).request.headers == c.request.headers + [said]
  {
    hide ParseInteger, ParseValue, SaysHeader, HeaderAt;
    var line, i, end := h.0 + ":" + h.1, p + |h.0|, p + |h.0| + 1 + |h.1|;
    assert forall k :: 0 <= k < |line| ==> post[p + k] == post[p..end][k] == line[k];
    FindCharIs(post, ':', p, end, i);
    assert post[p..i] == line[..|h.0|] == h.0;
    assert post[i + 1..end] == line[|h.0| + 1..] == h.1;
    said := HeaderAt(tb, post, p, i, end);
    TightSays(tb, post, p, i, end, h);
    UpdateBodyOnly(tb, c.(request := c.request.(headers := c.request.headers + [said])), said, h.1);
  }

  lemma TightSays(tb: Tables, post: string, p: nat, i: nat, end: nat, h: (string, string))
    requires p <= i && i + 1 <= end <= |post| && ValueStart(post, i) == i + 1 && Cut(post, p, i) == h.0
        && Cut(post, i + 1, end) == h.1
    ensures SaysHeader(tb, post, HeaderAt(tb, post, p, i, end), h)
  {
    hide ParseInteger;
  }

  lemma BodyRendered(post: string, d: Context, body: string, what: Announced, count: nat)
    requires d.cur == d.next <= |post| < SIZE_LIMIT && post[d.next..] == body && count != 100 && d.request.body == ""
    requires BodyKnown(d, what) && Fits(what, body)
    ensures Body(post, d, count).1 == Success
    ensures Body(post, d, count).0.request == d.request.(body := body)
  {
    assert |post| == d.next + |body|;
    assert post[d.cur..|post|] == body;
  }

  /** A body that was not announced as it is does not end in success. */
  lemma BodyUnfit(post: string, d: Context, body: string, what: Announced, count: nat)
    requires 0 < d.cur == d.next <= |post| < SIZE_LIMIT && post[d.next..] == body && count != 100
    requires BodyKnown(d, what) && !Fits(what, body)
    ensures Body(post, d, count).1 != Success
  {
    assert |post| == d.next + |body|;
  }

  /** A rendered request with at most 98 headers, fed in one piece, is read back. */
  lemma RenderedIsRead(tb: Tables, src: Source)
    requires Readable(tb, src) && |src.headers| <= 98
    ensures var r := Feed(tb, Render(src), INITIAL);
            r.1 == Success && SaysRequest(tb, Render(src), r.0.request, src)
    ensures HeaderLimit(Render(src), INITIAL)
  {
    var post, rest := Render(src), RenderHeaders(src.headers) + CRLF + src.body;
    RequestLineRendered(post, INITIAL, src, rest);
    var c := NextLine(post, INITIAL).value;
    var e := ParseRequestLine(post, AtRequestLine(c));
    var d := HeadersRendered(tb, post, e, src.headers, src.body, Nothing, 1);
    BodyRendered(post, d, src.body, AnnouncedBy(tb, src.headers, Nothing), 1 + |src.headers|);
    MethodNamed(src.verb, MatchMethod(src.verb));
    VersionNamed(src.version, MatchVersion(src.version));
  }

  /** Behind the hundredth header line the code takes what follows for the body. */
  lemma UnreadLine(post: string, c: Context, body: string, what: Announced)
    requires c.cur + 2 <= c.next <= |post| < SIZE_LIMIT && post[c.next..] == CRLF + body
    requires BodyKnown(c, what)
    ensures Body(post, c, 101).1 == Success ==> |Body(post, c, 101).0.request.body| > |body|
  {
    assert |post| == c.next + 2 + |body|;
  }

  lemma BodyKeepsHeaders(post: string, c: Context, count: nat)
    ensures Body(post, c, count).0.request.headers == c.request.headers
  {
  }

  lemma OverflowEnds(tb: Tables, post: string, c: Context, hs: seq<(string, string)>, body: string, before: Announced)
    requires Remaining(tb, post, c, hs, body, before) && c.cur + 2 <= c.next
    ensures |Headers(tb, post, c, 101).0.request.headers| == |c.request.headers|
    ensures hs == [] && Headers(tb, post, c, 101).1 == Success
            ==> |Headers(tb, post, c, 101).0.request.body| > |body|
  {
    BodyKeepsHeaders(post, c, 101);
    if hs == [] {
      assert RenderHeaders(hs) + CRLF + body == CRLF + body;
      UnreadLine(post, c, body, before);
    }
  }

  lemma OneAdded(c: Context, e: Context, h: Header)
    requires HeaderAdded(c, e, h)
    ensures |e.request.headers| == |c.request.headers| + 1
  {
  }

  /** With a hundred headers or more, no more than a hundred are read, and behind a hundred the body is not that of the
      request. */
  lemma {:induction false} HeadersOverflow(tb: Tables, post: string, c: Context, hs: seq<(string, string)>,
      body: string, before: Announced, count: nat)
    requires Remaining(tb, post, c, hs, body, before)
    requires count <= 101 <= count + |hs| && (count == 101 ==> c.cur + 2 <= c.next)
    ensures |Headers(tb, post, c, count).0.request.headers| == |c.request.headers| + (101 - count)
    ensures var r := Headers(tb, post, c, count); count + |hs| == 101 && r.1 == Success ==> |r.0.request.body| > |body|
    decreases |hs|
  {
    hide *;
    if count == 101 {
      OverflowEnds(tb, post, c, hs, body, before);
    } else {
      var e, h := RemainingStep(tb, post, c, hs, body, before, count);
      OneAdded(c, e, h);
      HeadersOverflow(tb, post, e, hs[1..], body, AnnouncedAfter(tb, hs[0], before), count + 1);
    }
  }

  /** With a body that was not announced as it is a rendered request does not end in success. */
  lemma UnfitFails(tb: Tables, src: Source)
    requires Sound(tb, src) && |src.headers| <= 98 && !Fits(AnnouncedBy(tb, src.headers, Nothing), src.body)
    ensures Feed(tb, Render(src), INITIAL).1 != Success
  {
    var post, rest := Render(src), RenderHeaders(src.headers) + CRLF + src.body;
    RequestLineRendered(post, INITIAL, src, rest);
    var e := ParseRequestLine(post, AtRequestLine(NextLine(post, INITIAL).value));
    var d := HeadersRendered(tb, post, e, src.headers, src.body, Nothing, 1);
    BodyUnfit(post, d, src.body, AnnouncedBy(tb, src.headers, Nothing), 1 + |src.headers|);
  }

  /** With 99 headers or more a rendered request is not read back. */
  lemma TooManyFail(tb: Tables, src: Source)
    requires Sound(tb, src) && |src.headers| > 98
    ensures var r := Feed(tb, Render(src), INITIAL);
            !(r.1 == Success && SaysRequest(tb, Render(src), r.0.request, src))
  {
    var post, rest := Render(src), RenderHeaders(src.headers) + CRLF + src.body;
    RequestLineRendered(post, INITIAL, src, rest);
    var e := ParseRequestLine(post, AtRequestLine(NextLine(post, INITIAL).value));
    if |src.headers| == 99 {
      var d := HeadersRendered(tb, post, e, src.headers, src.body, Nothing, 1);
    } else {
      HeadersOverflow(tb, post, e, src.headers, src.body, Nothing, 1);
    }
  }

  /** Fed in one piece, a rendered request is read back exactly if it has at most 98 headers and they announce the body
      that it has; chunks never do, and a negative length stands for one above 2^63. */
  lemma ReadExactly(tb: Tables, src: Source)
    requires Sound(tb, src)
    ensures var r := Feed(tb, Render(src), INITIAL);
            r.1 == Success && SaysRequest(tb, Render(src), r.0.request, src)
            <==> |src.headers| <= 98 && Fits(AnnouncedBy(tb, src.headers, Nothing), src.body)
  {
    if |src.headers| > 98 {
      TooManyFail(tb, src);
    } else if Fits(AnnouncedBy(tb, src.headers, Nothing), src.body) {
      RenderedIsRead(tb, src);
    } else {
      UnfitFails(tb, src);
    }
  }

  /** A rendered request with at most 98 headers is read back from any chunks, and each feed but the last asks for
      more. */
  lemma ChunksAreRead(tb: Tables, src: Source, chunks: seq<string>)
    requires Readable(tb, src) && |src.headers| <= 98
    requires chunks != [] && (forall i :: 0 <= i < |chunks| ==> chunks[i] != "") && Joined(chunks) == Render(src)
    ensures var r := FeedAll(tb, "", INITIAL, chunks);
            && SaysRequest(tb, Render(src), r.0.request, src) && r.0 == Feed(tb, Render(src), INITIAL).0
            && |r.1| == |chunks| && LastCompletes(r.1)
  {
    RenderedIsRead(tb, src);
    assert "" + Joined(chunks) == Render(src);
    AnyChunks(tb, "", INITIAL, chunks);
  }

  function Repeated(n: nat): (hs: seq<(string, string)>)
    ensures |hs| == n && forall i :: 0 <= i < n ==> hs[i] == ("a", "b")
  {
    seq(n, _ => ("a", "b"))
  }

  lemma {:induction false} RepeatedFacts(tb: Tables, n: nat)
    ensures |RenderHeaders(Repeated(n))| == 6 * n && AnnouncedBy(tb, Repeated(n), Nothing) == Nothing
  {
    if n > 0 {
      RepeatedFacts(tb, n - 1);
      assert Repeated(n)[1..] == Repeated(n - 1);
      assert HeaderLine(("a", "b")) == "a: b";
      assert SkipSpaces("b") == "b";
    }
  }

  /** A readable request with 99 headers; by ReadExactly it is not read back. */
  lemma NinetyNineHeadersExample(tb: Tables)
    requires tb.contentLength != tb.transferEncoding
    ensures var src := Source("GET", "/", "HTTP/1.1", Repeated(99), ""); Readable(tb, src) && |src.headers| == 99
  {
    hide ParseInteger, FieldOf, AnnouncedBy, RenderHeaders;
    RepeatedFacts(tb, 99);
    var src := Source("GET", "/", "HTTP/1.1", Repeated(99), "");
    assert |Render(src)| == |RequestLine(src)| + 2 + (|RenderHeaders(src.headers)| + 2 + 0);
    assert SoundHeader(("a", "b"));
  }
}
