/** http_parse_dfa.c: the parser's context, changed in place as text is fed to it. */
module HttpFeed {
  import opened Wrappers
  import opened HttpText
  import P = HttpParse

  /** string_view_substr */
  function SubView(view: View, pos: nat, len: nat): View {
    if pos >= view.len then View(view.pos + pos, 0)
        else View(view.pos + pos, if len < view.len - pos then len else view.len - pos)
  }

  lemma SubViewText(post: string, view: View, pos: nat, len: nat)
    requires Inside(view, |post|) && pos + len <= view.len
    ensures SubView(view, pos, len) == View(view.pos + pos, len) && Inside(SubView(view, pos, len), |post|)
    ensures Text(post, SubView(view, pos, len)) == P.Cut(post, view.pos + pos, view.pos + pos + len)
  {
  }

  /** A view that ends with the one it is cut from, or lies one place behind it. */
  lemma SubViewRest(post: string, view: View, pos: nat, len: nat)
    requires view.pos + view.len < |post| && pos <= view.len + 1 && len + pos >= view.len
    ensures SubView(view, pos, len) == View(view.pos + pos, if pos <= view.len then view.len - pos else 0)
    ensures Inside(SubView(view, pos, len), |post|)
    ensures Text(post, SubView(view, pos, len)) == P.Cut(post, view.pos + pos, view.pos + view.len)
  {
  }

  class Parser {
    var post: string
    var wait: P.WaitState
    var full: nat
    var cur: nat
    var next: nat
    var requestLine: View
    var lines: seq<View>
    var bodyType: P.BodyType
    var bodyLength: nat
    var bodyView: View
    var request: P.Request

    /** http_parse_ctx_new: a zeroed context. */
    constructor ()
      ensures post == "" && Snapshot() == P.INITIAL
      ensures wait == P.Start && full == cur == next == 0 && lines == [] && bodyType == P.NoBody && bodyLength == 0
      ensures request.path == "" && request.headers == [] && request.body == ""
    {
      post, wait, full, cur, next, requestLine, lines := "", P.Start, 0, 0, 0, View(0, 0), [];
      bodyType, bodyLength, bodyView, request := P.NoBody, 0, View(0, 0), P.INITIAL.request;
    }

    function Snapshot(): P.Context
      reads this
    {
      P.Context(wait, full, cur, next, requestLine, lines, bodyType, bodyLength, bodyView, request)
    }

    /** update_ctx_to_next_clrf */
    method UpdateToNextCrlf() returns (found: bool)
      modifies this`cur, this`next
      ensures found == P.NextLine(post, old(Snapshot())).Some?
      ensures Snapshot() == match P.NextLine(post, old(Snapshot())) case None => old(Snapshot()) case Some(d) => d
    {
      var i := 0;
      while next + i + 1 < |post|
        invariant FindCrlf(post, next) == FindCrlf(post, next + i)
        decreases |post| - i
      {
        if post[next + i] == '\r' && post[next + i + 1] == '\n' {
          cur := next;
          next := next + i + 2;
          return true;
        }
        i := i + 1;
      }
      found := false;
    }

    /** pos_next_token */
    method PosNextToken(view: View, c: char, token: nat) returns (found: bool, len: nat, after: nat)
      requires Inside(view, |post|)
      ensures match FindChar(post, c, view.pos + token, view.pos + view.len)
              case None => !found
              case Some(i) => found && view.pos + after == i + 1 && view.pos + token + len == i
    {
      var i := token;
      while i < view.len
        invariant token <= i && FindChar(post, c, view.pos + token, view.pos + view.len)
            == FindChar(post, c, view.pos + i, view.pos + view.len)
      {
        if post[view.pos + i] == c {
          return true, i - token, i + 1;
        }
        i := i + 1;
      }
      found, len, after := false, 0, 0;
    }

    /** parse_request_line, from the path on. */
    method ParsePath(token: nat)
      requires requestLine.pos + requestLine.len < |post| && requestLine.pos == cur && cur + requestLine.len + 2 == next
      requires token <= requestLine.len
      modifies this`request
      ensures request == P.WithPath(post, old(request), requestLine.pos + token, requestLine.pos + requestLine.len)
    {
      var found, len, after := PosNextToken(requestLine, ' ', token);
      if !found {
        return;
      }
      hide MatchVersion;
      ghost var from, end := requestLine.pos + token, requestLine.pos + requestLine.len;
      SubViewText(post, requestLine, token, len);
      var path := Text(post, SubView(requestLine, token, len));
      assert path == P.Cut(post, from, from + len);
      request := request.(path := path);
      SubViewRest(post, requestLine, after, next - 2 - after);
      var version := Text(post, SubView(requestLine, after, next - 2 - after));
      assert version == P.Cut(post, from + len + 1, end);
      request := request.(version := MatchVersion(version));
    }

    /** parse_request_line */
    method ParseRequestLine()
      requires requestLine.pos + requestLine.len < |post| && requestLine.pos == cur && cur + requestLine.len + 2 == next
      modifies this`request
      ensures request == P.WithRequestLine(post, old(request), requestLine)
    {
      hide MatchMethod, P.WithPath;
      var found, len, after := PosNextToken(requestLine, ' ', 0);
      if !found {
        request := request.(verb := UnknownMethod, version := UnknownVersion);
        return;
      }
      SubViewText(post, requestLine, 0, len);
      request := request.(verb := MatchMethod(Text(post, SubView(requestLine, 0, len))));
      ParsePath(after);
    }

    /** The part of parse_header_line that reads the last line: its header, and the view of the value. */
    method ReadHeader(t: P.Tables, line: View) returns (h: Option<P.Header>, value: View)
      requires line.pos + line.len + 1 < |post| && post[line.pos + line.len] == '\r'
      ensures match FindChar(post, ':', line.pos, line.pos + line.len)
              case None => h == None
              case Some(i) =>
                && h == Some(P.HeaderAt(t, post, line.pos, i, line.pos + line.len)) && Inside(value, |post|)
                && Text(post, value) == P.Cut(post, P.ValueStart(post, i), line.pos + line.len)
    {
      var found, len, after := PosNextToken(line, ':', 0);
      if !found {
        return None, line;
      }
      SubViewText(post, line, 0, len);
      var key := SubView(line, 0, len);
      var field := P.FieldOf(t, Text(post, key));
      var token := after;
      if post[line.pos + token] == ' ' {
        token := token + 1;
      }
      SubViewRest(post, line, token, line.len);
      value := SubView(line, token, line.len);
      match P.ParseValue(t, field, Text(post, value)) {
        case None =>
          h := Some(P.Header(P.Unknown, key, value, false));
        case Some(parsed) =>
          h := Some(P.Header(field, if field.Unknown? then key else View(0, 0), value, parsed));
      }
    }

    /** header_line_update_body_type */
    method UpdateBodyType(t: P.Tables, h: P.Header, value: View)
      requires Inside(value, |post|)
      modifies this`bodyType, this`bodyLength
      ensures Snapshot() == P.UpdateBody(t, old(Snapshot()), h, Text(post, value))
    {
      if h.field == P.Known(t.contentLength) && h.parsed {
        match ParseInteger(Text(post, value)) {
          case None =>
          case Some(n) =>
            bodyType := P.Fixed;
            P.IntegerRange(Text(post, value));
            bodyLength := if n < 0 then n + SIZE_LIMIT else n;
        }
      } else if h.field == P.Known(t.transferEncoding) && h.parsed {
        bodyType := P.Chunked;
      }
    }

    /** parse_header_line */
    method ParseHeaderLine(t: P.Tables)
      requires lines != [] && var line := lines[|lines| - 1];
          line.pos + line.len + 1 < |post|
          && post[line.pos + line.len] == '\r'
      modifies this`request, this`bodyType, this`bodyLength
      ensures Snapshot() == P.ParseHeaderLine(t, post, old(Snapshot()), lines[|lines| - 1])
    {
      var h, value := ReadHeader(t, lines[|lines| - 1]);
      if h.Some? {
        request := request.(headers := request.headers + [h.value]);
        UpdateBodyType(t, h.value, value);
      }
    }

    /** The label `end`. */
    method Finish() returns (o: P.Outcome)
      modifies this`wait
      ensures (Snapshot(), o) == P.Finish(post, old(Snapshot()))
    {
      if full != next || full != |post| {
        return P.AssertionFails;
      }
      wait := P.End;
      o := P.Success;
    }

    /** The label `wait_fix_body`. */
    method ReadFixedBody() returns (o: P.Outcome)
      requires |post| < SIZE_LIMIT
      modifies this`wait, this`full, this`next, this`bodyView, this`request
      ensures (Snapshot(), o) == P.ReadBody(post, old(Snapshot()))
    {
      wait := P.WaitBody;
      full := (cur + bodyLength) % SIZE_LIMIT;
      if full > |post| {
        return P.NeedBody;
      }
      next := full;
      var view := SubView(View(0, |post|), cur, bodyLength);
      if view.len != bodyLength || cur + bodyLength > |post| {
        return P.AssertionFails;
      }
      bodyView := view;
      request := request.(body := Text(post, view));
      o := Finish();
    }

    /** What follows the headers. */
    method ReadBody(count: nat) returns (o: P.Outcome)
      requires |post| < SIZE_LIMIT
      modifies this`wait, this`full, this`next, this`bodyView, this`request
      ensures (Snapshot(), o) == P.Body(post, old(Snapshot()), count)
    {
      if count == 100 {
        return P.Fatal;
      }
      match bodyType {
        case NoBody =>
          full := next;
          o := Finish();
        case Fixed =>
          o := ReadFixedBody();
        case Chunked =>
          wait := P.WaitLength;
          wait := P.WaitValue;
          o := Finish();
      }
    }

    /** One header line. */
    method AddLine(t: P.Tables, ghost c: P.Context)
      requires P.NextLine(post, c) == Some(Snapshot())
      modifies this`lines, this`request, this`bodyType, this`bodyLength
      ensures old(Snapshot()).cur + 2 <= old(Snapshot()).next <= |post|
      ensures Snapshot() == P.Advance(t, post, c, old(Snapshot()))
    {
      lines := lines + [View(cur, next - cur - 2)];
      ParseHeaderLine(t);
    }

    /** The label `wait_hdr`. */
    method ReadHeaders(t: P.Tables) returns (o: P.Outcome)
      requires |post| < SIZE_LIMIT
      modifies this
      ensures post == old(post) && (Snapshot(), o) == P.Headers(t, post, old(Snapshot()), 1)
    {
      ghost var start := Snapshot();
      var count := 1;
      while count <= 100
        invariant post == old(post) && 1 <= count <= 101
        invariant P.Headers(t, post, start, 1) == P.Headers(t, post, Snapshot(), count)
        decreases 101 - count
      {
        ghost var c := Snapshot();
        var found := UpdateToNextCrlf();
        if !found {
          return P.NeedLine;
        }
        ghost var d := Snapshot();
        if next - cur - 2 == 0 {
          cur := cur + 2;
          assert P.Headers(t, post, c, count) == P.Body(post, Snapshot(), count);
          break;
        }
        AddLine(t, c);
        P.HeadersStep(t, post, c, d, count);
        count := count + 1;
      }
      assert P.Headers(t, post, start, 1) == P.Body(post, Snapshot(), count);
      o := ReadBody(count);
    }

    /** The label `wait_req`. */
    method ReadRequest(t: P.Tables) returns (o: P.Outcome)
      requires |post| < SIZE_LIMIT
      modifies this
      ensures post == old(post) && (Snapshot(), o) == P.ReadRequest(t, post, old(Snapshot()))
    {
      ghost var c := Snapshot();
      wait := P.WaitRequest;
      var found := UpdateToNextCrlf();
      if !found {
        return P.NeedLine;
      }
      requestLine := View(cur, next - cur - 2);
      ParseRequestLine();
      wait := P.WaitHeader;
      assert Snapshot() == P.ParseRequestLine(post, P.AtRequestLine(P.NextLine(post, c).value));
      o := ReadHeaders(t);
    }

    /** http_parse_feed: the chunk is appended and parsed as far as it goes, as the function P.Feed says. */
    method Feed(t: P.Tables, chunk: string) returns (o: P.Outcome)
      requires |post| + |chunk| < SIZE_LIMIT
      modifies this
      ensures post == old(post) + chunk && (Snapshot(), o) == P.Feed(t, post, old(Snapshot()))
    {
      post := post + chunk;
      match wait {
        case Start =>
          o := ReadRequest(t);
        case WaitRequest =>
          o := ReadRequest(t);
        case WaitHeader =>
          o := ReadHeaders(t);
        case WaitBody =>
          o := ReadFixedBody();
        case WaitLength =>
          wait := P.WaitValue;
          o := Finish();
        case WaitValue =>
          o := Finish();
        case End =>
          o := Finish();
      }
    }
  }
}
