/**
 * The response comparator: what the relay logs once the primary exchange
 * and the secondary capture have both completed.  Each captured response
 * is cut at the first empty line into head and body, the head into the
 * status line and the header lines; the header lines are sorted so that
 * their order does not matter, and the two sorted header blocks are
 * handed to the line diff engine.  Logging is modelled as the sequence of
 * lines logged, in order.
 */
module Comparator {
  import opened GoStrings
  import opened StringSort
  import opened HeaderDiff
  import opened Capture

  /** The empty line that ends the head of an HTTP/1.x message. */
  const HeaderBoundary: string := "\r\n\r\n"

  /** The line terminator of HTTP/1.x. */
  const LineBreak: string := "\r\n"

  /** A captured response cut in two at the header/body boundary. */
  datatype Message = Message(head: string, body: string)

  /**
   * Cuts a capture at the first boundary.  The split result is padded with
   * two empty strings, so a capture without a boundary is all head and has
   * an empty body.
   */
  function SplitMessage(buf: string): Message {
    var parts := SplitN(buf, HeaderBoundary, 2) + ["", ""];
    Message(parts[0], parts[1])
  }

  /** The lines of a response head: the status line, then the header lines. */
  function HeadLines(buf: string): (lines: seq<string>)
    ensures |lines| >= 1
  {
    Split(SplitMessage(buf).head, LineBreak)
  }

  /** The header lines, sorted, each followed by a line break: what the diff engine compares. */
  function HeaderBlock(headers: seq<string>): string {
    Join(SortLines(headers), LineBreak) + LineBreak
  }

  /** The log line about the two status lines. */
  function StatusMessage(a: string, b: string): string {
    if a != b then "Response code differs:\n- " + a + "\n+ " + b
    else "Response code: " + a
  }

  /** The log line about the two bodies, if any. */
  function BodyLog(bodyA: string, bodyB: string): seq<string> {
    if bodyA != bodyB then ["Response body differs"] else []
  }

  /**
   * The lines logged when comparing the primary capture `bufa` with the
   * secondary capture `bufb`, given the diff engine `differ`.
   */
  function ComparisonLog(request: string, bufa: string, bufb: string,
                         differ: (string, string) -> seq<DiffOp>): seq<string>
  {
    var splita, splitb := SplitMessage(bufa), SplitMessage(bufb);
    var linesa, linesb := Split(splita.head, LineBreak), Split(splitb.head, LineBreak);
    if |linesa| > 0 && |linesb| > 0 then
      var respa, respb := HeaderBlock(linesa[1..]), HeaderBlock(linesb[1..]);
      var diff := differ(respa, respb);
      ["Request:\n" + request, StatusMessage(linesa[0], linesb[0])]
      + HeaderDiffLog(diff)
      + BodyLog(splita.body, splitb.body)
    else
      ["Response missing"]
  }

  /** Whether the secondary backend could be dialled, and what its reads return. */
  datatype Secondary = Unreachable | Connected(stream: seq<ReadResult>)

  /** The comparison logged for one session: none without a secondary backend. */
  function SessionLog(request: string, bufa: string, secondary: Secondary,
                      differ: (string, string) -> seq<DiffOp>): seq<string>
  {
    match secondary
    case Unreachable => []
    case Connected(stream) => ComparisonLog(request, bufa, Captured(stream), differ)
  }

  // ---------------------------------------------------------------------
  // Splitting

  /**
   * With a boundary, the head is the text before its first occurrence and
   * the body everything after it; without one, the head is the whole
   * capture and the body is empty.  No boundary starts inside the head.
   */
  lemma SplitMessageSpec(buf: string)
    ensures var m := SplitMessage(buf);
            var i := Index(buf, HeaderBoundary);
            && (i >= 0 ==> m.head == buf[..i] && m.head + HeaderBoundary + m.body == buf)
            && (i < 0 ==> m == Message(buf, ""))
            && forall j :: 0 <= j < |m.head| ==> !OccursAt(buf, HeaderBoundary, j)
  {
    SplitNTwo(buf, HeaderBoundary);
    var i := Index(buf, HeaderBoundary);
    if i >= 0 {
      assert buf[i..i + 4] == HeaderBoundary;
      assert buf == buf[..i] + buf[i..i + 4] + buf[i + 4..];
    } else {
      forall j | 0 <= j < |buf| ensures !OccursAt(buf, HeaderBoundary, j) {
        if OccursAt(buf, HeaderBoundary, j) {
          assert Contains(buf, HeaderBoundary);
        }
      }
    }
  }

  /**
   * Splitting the head into lines never yields zero lines, and joining the
   * lines again gives the head back; none of the lines contains a line break.
   */
  lemma HeadLinesSpec(buf: string)
    ensures |HeadLines(buf)| >= 1
    ensures Join(HeadLines(buf), LineBreak) == SplitMessage(buf).head
    ensures forall line :: line in HeadLines(buf) ==> !Contains(line, LineBreak)
  {
    JoinSplit(SplitMessage(buf).head, LineBreak);
    SplitPiecesFree(SplitMessage(buf).head, LineBreak);
  }

  /** A line that the head of a response may hold: non-empty, without a line break. */
  predicate IsLine(line: string) {
    |line| > 0 && !Contains(line, LineBreak)
  }

  /** A response laid out as HTTP/1.x frames it: the head's lines, an empty line, the body. */
  function FormatResponse(status: string, headers: seq<string>, body: string): string {
    Join([status] + headers, LineBreak) + HeaderBoundary + body
  }

  /** The characters of a line break, and of a boundary, found at position `j`. */
  lemma BreakChars(s: string, j: int)
    ensures OccursAt(s, LineBreak, j) ==> s[j] == '\r' && s[j + 1] == '\n'
    ensures OccursAt(s, HeaderBoundary, j) ==> OccursAt(s, LineBreak, j) && OccursAt(s, LineBreak, j + 2)
  {
    if OccursAt(s, LineBreak, j) {
      assert s[j..j + 2][1] == s[j + 1];
    }
    if OccursAt(s, HeaderBoundary, j) {
      assert s[j..j + 4] == HeaderBoundary;
      assert s[j..j + 2] == s[j..j + 4][..2] && s[j + 2..j + 4] == s[j..j + 4][2..];
    }
  }

  /** No line break starts inside a line that is followed by a carriage return. */
  lemma NoBreakInLine(line: string, after: string)
    requires IsLine(line)
    requires |after| > 0 && after[0] == '\r'
    ensures forall j :: 0 <= j < |line| ==> !OccursAt(line + after, LineBreak, j)
  {
    var s := line + after;
    forall j | 0 <= j < |line| ensures !OccursAt(s, LineBreak, j) {
      BreakChars(s, j);
      if j + 2 <= |line| {
        assert !OccursAt(line, LineBreak, j);
        assert line[j..j + 2] == [line[j], line[j + 1]];
        assert s[j] == line[j] && s[j + 1] == line[j + 1];
      } else {
        assert s[j + 1] == after[0];
      }
    }
  }

  /**
   * A boundary cannot start at a line break that is followed by a line,
   * nor in what follows it when that holds no boundary of its own.
   */
  lemma NoBoundaryAfterBreak(first: string, r: string, n: int)
    requires 0 <= n
    requires !OccursAt(r, LineBreak, 0)
    requires forall j :: 0 <= j < n ==> !OccursAt(r, HeaderBoundary, j)
    ensures forall j :: |first| <= j < |first| + 2 + n ==>
              !OccursAt(first + LineBreak + r, HeaderBoundary, j)
  {
    var s := first + LineBreak + r;
    assert s == (first + LineBreak) + r;
    forall j | |first| <= j < |first| + 2 + n ensures !OccursAt(s, HeaderBoundary, j) {
      BreakChars(s, j);
      if j == |first| {
        OccursAfter(first + LineBreak, r, LineBreak, 0);
      } else if j == |first| + 1 {
        assert s[j] == '\n';
      } else {
        OccursAfter(first + LineBreak, r, HeaderBoundary, j - |first| - 2);
      }
    }
  }

  /**
   * Lines joined by line breaks hold no empty line: in the joined text
   * followed by anything that starts with a carriage return, the boundary
   * cannot start before the end of the last line.
   */
  lemma {:induction false} NoBoundaryInJoin(lines: seq<string>, tail: string)
    requires |lines| > 0 && forall line :: line in lines ==> IsLine(line)
    requires |tail| > 0 && tail[0] == '\r'
    ensures forall j :: 0 <= j < |Join(lines, LineBreak)| ==>
              !OccursAt(Join(lines, LineBreak) + tail, HeaderBoundary, j)
    decreases |lines|
  {
    var first := lines[0];
    var joined := Join(lines, LineBreak);
    var after := if |lines| == 1 then tail else LineBreak + Join(lines[1..], LineBreak) + tail;
    var s := first + after;
    assert joined + tail == s;
    assert IsLine(first);
    NoBreakInLine(first, after);
    forall j | 0 <= j < |first| ensures !OccursAt(s, HeaderBoundary, j) {
      BreakChars(s, j);
    }
    if |lines| > 1 {
      var rest := Join(lines[1..], LineBreak);
      var r := rest + tail;
      var second := lines[1];
      assert IsLine(second);
      NoBoundaryInJoin(lines[1..], tail);
      var more := if |lines| == 2 then tail else LineBreak + Join(lines[2..], LineBreak) + tail;
      assert r == second + more;
      NoBreakInLine(second, more);
      assert s == first + LineBreak + r;
      NoBoundaryAfterBreak(first, r, |rest|);
    }
  }

  /**
   * Reading a formatted response gives its parts back: the head's lines
   * are the status line and the header lines, and the body is the body.
   */
  lemma SplitFormattedResponse(status: string, headers: seq<string>, body: string)
    requires IsLine(status) && forall line :: line in headers ==> IsLine(line)
    ensures var buf := FormatResponse(status, headers, body);
            HeadLines(buf) == [status] + headers && SplitMessage(buf).body == body
  {
    var lines := [status] + headers;
    var head := Join(lines, LineBreak);
    var buf := FormatResponse(status, headers, body);
    NoBoundaryInJoin(lines, HeaderBoundary + body);
    assert buf == head + (HeaderBoundary + body);
    assert buf[|head|..|head| + 4] == HeaderBoundary;
    IndexIs(buf, HeaderBoundary, |head|);
    SplitMessageSpec(buf);
    assert buf[..|head|] == head;
    assert buf[|head| + 4..] == body;
    SplitJoin(lines, LineBreak);
  }

  /** An empty capture has an empty head, an empty body and the empty status line. */
  lemma EmptyCapture()
    ensures SplitMessage("") == Message("", "")
    ensures HeadLines("") == [""]
  {
    SplitMessageSpec("");
    assert Index("", LineBreak) == -1;
  }

  // ---------------------------------------------------------------------
  // Header normalisation

  /**
   * The header block ignores the order of the header lines: two lists with
   * the same lines give the same block, which ends in a line break.
   */
  lemma HeaderBlockOrderInsensitive(h1: seq<string>, h2: seq<string>)
    requires multiset(h1) == multiset(h2)
    ensures HeaderBlock(h1) == HeaderBlock(h2)
    ensures var block := HeaderBlock(h1); |block| >= 2 && block[|block| - 2..] == LineBreak
  {
    SortedUnique(SortLines(h1), SortLines(h2));
  }

  /** Splitting a header block recovers the sorted header lines (and an empty last line). */
  lemma HeaderBlockLines(headers: seq<string>)
    requires |headers| > 0
    requires forall line :: line in headers ==> !Contains(line, LineBreak)
    ensures Split(HeaderBlock(headers), LineBreak) == SortLines(headers) + [""]
  {
    var sorted := SortLines(headers);
    forall line | line in sorted + [""] ensures !Contains(line, LineBreak) {
      if line in sorted {
        assert line in multiset(sorted);
      }
    }
    JoinAppendEmpty(sorted, LineBreak);
    SplitJoin(sorted + [""], LineBreak);
  }

  lemma {:induction false} JoinAppendEmpty(parts: seq<string>, sep: string)
    requires |parts| > 0
    ensures Join(parts + [""], sep) == Join(parts, sep) + sep
    decreases |parts|
  {
    if |parts| == 1 {
      assert (parts + [""])[1..] == [""];
    } else {
      assert (parts + [""])[1..] == parts[1..] + [""];
      JoinAppendEmpty(parts[1..], sep);
    }
  }

  /**
   * For non-empty lists of lines without line breaks, the header blocks are
   * equal exactly when the two lists hold the same lines.
   */
  lemma HeaderBlockEqualIff(h1: seq<string>, h2: seq<string>)
    requires |h1| > 0 && |h2| > 0
    requires forall line :: line in h1 ==> !Contains(line, LineBreak)
    requires forall line :: line in h2 ==> !Contains(line, LineBreak)
    ensures HeaderBlock(h1) == HeaderBlock(h2) <==> multiset(h1) == multiset(h2)
  {
    if HeaderBlock(h1) == HeaderBlock(h2) {
      HeaderBlockLines(h1);
      HeaderBlockLines(h2);
      var s1, s2 := SortLines(h1), SortLines(h2);
      assert s1 == (s1 + [""])[..|s1|];
      assert s2 == (s2 + [""])[..|s2|];
    } else if multiset(h1) == multiset(h2) {
      HeaderBlockOrderInsensitive(h1, h2);
    }
  }

  /**
   * No header lines and a single empty header line give the same block:
   * a head ending in a bare line break compares equal to one without it.
   */
  lemma NoHeadersLikeEmptyHeader()
    ensures HeaderBlock([]) == HeaderBlock([""]) == LineBreak
  {
  }

  // ---------------------------------------------------------------------
  // The comparison decision

  predicate StartsWith(s: string, prefix: string) {
    |prefix| <= |s| && s[..|prefix|] == prefix
  }

  /**
   * The four kinds of log line cannot be mistaken for one another: the
   * request, the status message, the header diff and the body message.
   */
  lemma LogLinesDistinct(request: string, a: string, b: string,
                         headerLog: seq<string>, bodyLog: seq<string>)
    requires forall line :: line in headerLog ==> StartsWith(line, "Headers differ:\n")
    requires bodyLog == [] || bodyLog == ["Response body differs"]
    ensures var log := ["Request:\n" + request, StatusMessage(a, b)] + headerLog + bodyLog;
            && ("Response body differs" in log <==> bodyLog != [])
            && "Response missing" !in log
            && forall k :: 0 <= k < |log| ==> (StartsWith(log[k], "Response code") <==> k == 1)
  {
    var log := ["Request:\n" + request, StatusMessage(a, b)] + headerLog + bodyLog;
    var body, missing, code := "Response body differs", "Response missing", "Response code";
    assert ("Request:\n" + request)[2] == 'q' && body[2] == missing[2] == code[2] == 's';
    assert StatusMessage(a, b)[9] == 'c' && body[9] == 'b' && missing[9] == 'm';
    assert StartsWith(StatusMessage(a, b), code);
    forall line | line in headerLog ensures line[0] == 'H' {
      assert StartsWith(line, "Headers differ:\n");
      assert line[0] == line[..16][0] == "Headers differ:\n"[0];
    }
    assert body[0] == missing[0] == code[0] == 'R';
    forall k | 2 <= k < |log| ensures log[k] in headerLog + bodyLog {
      assert log[k] == (headerLog + bodyLog)[k - 2];
    }
  }

  /** Every line PrintDiff logs starts with the "Headers differ" heading. */
  lemma HeaderDiffLogHeading(diff: seq<DiffOp>)
    ensures forall line :: line in HeaderDiffLog(diff) ==> StartsWith(line, "Headers differ:\n")
  {
    var output := DiffText(diff);
    assert ("Headers differ:\n" + output)[..16] == "Headers differ:\n";
  }

  /**
   * The guard on the number of lines always holds, so the comparison is
   * always made: the log is the request, the status message, the header
   * diff and the body message, in that order, and never "Response missing".
   */
  lemma ComparisonLogShape(request: string, bufa: string, bufb: string,
                           differ: (string, string) -> seq<DiffOp>)
    ensures var ma, mb := SplitMessage(bufa), SplitMessage(bufb);
            var la, lb := HeadLines(bufa), HeadLines(bufb);
            ComparisonLog(request, bufa, bufb, differ)
            == ["Request:\n" + request, StatusMessage(la[0], lb[0])]
               + HeaderDiffLog(differ(HeaderBlock(la[1..]), HeaderBlock(lb[1..])))
               + BodyLog(ma.body, mb.body)
    ensures "Response missing" !in ComparisonLog(request, bufa, bufb, differ)
  {
    var la, lb := HeadLines(bufa), HeadLines(bufb);
    var diff := differ(HeaderBlock(la[1..]), HeaderBlock(lb[1..]));
    HeaderDiffLogHeading(diff);
    LogLinesDistinct(request, la[0], lb[0], HeaderDiffLog(diff),
                     BodyLog(SplitMessage(bufa).body, SplitMessage(bufb).body));
  }

  /**
   * Exactly one status message is logged, right after the request: the
   * status line when both agree, otherwise both status lines.
   */
  lemma StatusDecision(request: string, bufa: string, bufb: string,
                       differ: (string, string) -> seq<DiffOp>)
    ensures var log := ComparisonLog(request, bufa, bufb, differ);
            var a, b := HeadLines(bufa)[0], HeadLines(bufb)[0];
            && |log| >= 2
            && log[0] == "Request:\n" + request
            && log[1] == (if a == b then "Response code: " + a
                          else "Response code differs:\n- " + a + "\n+ " + b)
            && forall k :: 0 <= k < |log| ==> (StartsWith(log[k], "Response code") <==> k == 1)
  {
    ComparisonLogShape(request, bufa, bufb, differ);
    var la, lb := HeadLines(bufa), HeadLines(bufb);
    var diff := differ(HeaderBlock(la[1..]), HeaderBlock(lb[1..]));
    HeaderDiffLogHeading(diff);
    LogLinesDistinct(request, la[0], lb[0], HeaderDiffLog(diff),
                     BodyLog(SplitMessage(bufa).body, SplitMessage(bufb).body));
  }

  /**
   * "Response body differs" is logged, as the last line, exactly when the
   * two bodies differ; the bodies themselves are never logged (the log
   * depends on them only through whether they are equal).
   */
  lemma BodyDecision(request: string, bufa: string, bufb: string,
                     differ: (string, string) -> seq<DiffOp>)
    ensures var log := ComparisonLog(request, bufa, bufb, differ);
            var bodyA, bodyB := SplitMessage(bufa).body, SplitMessage(bufb).body;
            && ("Response body differs" in log <==> bodyA != bodyB)
            && (bodyA != bodyB ==> log[|log| - 1] == "Response body differs")
  {
    ComparisonLogShape(request, bufa, bufb, differ);
    var la, lb := HeadLines(bufa), HeadLines(bufb);
    var diff := differ(HeaderBlock(la[1..]), HeaderBlock(lb[1..]));
    HeaderDiffLogHeading(diff);
    LogLinesDistinct(request, la[0], lb[0], HeaderDiffLog(diff),
                     BodyLog(SplitMessage(bufa).body, SplitMessage(bufb).body));
  }

  /** Changing the bodies without changing whether they are equal changes nothing in the log. */
  lemma BodiesOnlyCompared(request: string, bufa: string, bufb: string,
                           bufa': string, bufb': string,
                           differ: (string, string) -> seq<DiffOp>)
    requires SplitMessage(bufa).head == SplitMessage(bufa').head
    requires SplitMessage(bufb).head == SplitMessage(bufb').head
    requires (SplitMessage(bufa).body == SplitMessage(bufb).body)
             == (SplitMessage(bufa').body == SplitMessage(bufb').body)
    ensures ComparisonLog(request, bufa, bufb, differ) == ComparisonLog(request, bufa', bufb', differ)
  {
    ComparisonLogShape(request, bufa, bufb, differ);
    ComparisonLogShape(request, bufa', bufb', differ);
  }

  /**
   * With a diff engine meeting its contract, the header diff is logged
   * exactly when the sorted header blocks differ.
   */
  lemma HeaderDecision(request: string, bufa: string, bufb: string,
                       differ: (string, string) -> seq<DiffOp>)
    requires IsLineDiffer(differ)
    ensures var la, lb := HeadLines(bufa), HeadLines(bufb);
            var respa, respb := HeaderBlock(la[1..]), HeaderBlock(lb[1..]);
            var headerLog := HeaderDiffLog(differ(respa, respb));
            && (headerLog != [] <==> respa != respb)
            && ComparisonLog(request, bufa, bufb, differ)
               == ["Request:\n" + request, StatusMessage(la[0], lb[0])]
                  + headerLog + BodyLog(SplitMessage(bufa).body, SplitMessage(bufb).body)
  {
    ComparisonLogShape(request, bufa, bufb, differ);
    var la, lb := HeadLines(bufa), HeadLines(bufb);
    var respa, respb := HeaderBlock(la[1..]), HeaderBlock(lb[1..]);
    var diff := differ(respa, respb);
    assert ValidScript(diff, respa, respb);
    if respa == respb {
      assert !HasEdit(differ(respa, respa));
      HeaderDiffLogIff(diff);
    } else {
      DifferentBlocksLogged(diff, respa, respb);
    }
  }

  /**
   * Responses that agree in status line and body and carry the same header
   * lines in any order log only the request and the status line.
   */
  lemma ReorderedHeadersLogNoDiff(request: string, bufa: string, bufb: string,
                                  differ: (string, string) -> seq<DiffOp>)
    requires IsLineDiffer(differ)
    requires HeadLines(bufa)[0] == HeadLines(bufb)[0]
    requires multiset(HeadLines(bufa)[1..]) == multiset(HeadLines(bufb)[1..])
    requires SplitMessage(bufa).body == SplitMessage(bufb).body
    ensures ComparisonLog(request, bufa, bufb, differ)
            == ["Request:\n" + request, "Response code: " + HeadLines(bufa)[0]]
  {
    HeaderDecision(request, bufa, bufb, differ);
    HeaderBlockOrderInsensitive(HeadLines(bufa)[1..], HeadLines(bufb)[1..]);
  }

  /**
   * An empty secondary capture is still compared: its status line is
   * empty, and "Response missing" is not logged.
   */
  lemma EmptySecondaryCompared(request: string, bufa: string,
                               differ: (string, string) -> seq<DiffOp>)
    ensures var log := ComparisonLog(request, bufa, "", differ);
            var a := HeadLines(bufa)[0];
            && log[1] == (if a == "" then "Response code: " else "Response code differs:\n- " + a + "\n+ ")
            && "Response missing" !in log
  {
    EmptyCapture();
    StatusDecision(request, bufa, "", differ);
    ComparisonLogShape(request, bufa, "", differ);
  }

  /** A line without a carriage return holds no line break. */
  lemma LineWithoutCR(line: string)
    requires |line| > 0 && forall i :: 0 <= i < |line| ==> line[i] != '\r'
    ensures IsLine(line)
  {
    forall j | 0 <= j <= |line| ensures !OccursAt(line, LineBreak, j) {
      BreakChars(line, j);
    }
  }

  /**
   * The same headers in another order, the same status and body: only the
   * status line is logged ("HTTP/1.1 200 OK" with headers "A: 1", "B: 2"
   * against the same with the headers swapped, both with body "hello").
   */
  lemma ReorderedHeadersExample(request: string, status: string, h1: string, h2: string,
                                body: string, differ: (string, string) -> seq<DiffOp>)
    requires IsLineDiffer(differ)
    requires status == "HTTP/1.1 200 OK" && h1 == "A: 1" && h2 == "B: 2" && body == "hello"
    ensures ComparisonLog(request, FormatResponse(status, [h1, h2], body),
                          FormatResponse(status, [h2, h1], body), differ)
            == ["Request:\n" + request, "Response code: " + status]
  {
    LineWithoutCR(status);
    LineWithoutCR(h1);
    LineWithoutCR(h2);
    SplitFormattedResponse(status, [h1, h2], body);
    SplitFormattedResponse(status, [h2, h1], body);
    var bufa := FormatResponse(status, [h1, h2], body);
    var bufb := FormatResponse(status, [h2, h1], body);
    assert HeadLines(bufa)[1..] == [h1, h2] && HeadLines(bufb)[1..] == [h2, h1];
    assert multiset([h1, h2]) == multiset([h2, h1]);
    ReorderedHeadersLogNoDiff(request, bufa, bufb, differ);
  }

  /**
   * Different status lines are both logged, the primary's after "- " and
   * the secondary's after "+ " ("HTTP/1.1 200 OK" against
   * "HTTP/1.1 404 Not Found", whatever the headers and bodies).
   */
  lemma StatusMismatchExample(request: string, ok: string, notFound: string,
                              headers: seq<string>, body: string,
                              differ: (string, string) -> seq<DiffOp>)
    requires ok == "HTTP/1.1 200 OK" && notFound == "HTTP/1.1 404 Not Found"
    requires forall line :: line in headers ==> IsLine(line)
    ensures ComparisonLog(request, FormatResponse(ok, headers, body),
                          FormatResponse(notFound, headers, body), differ)[1]
            == "Response code differs:\n- " + ok + "\n+ " + notFound
  {
    LineWithoutCR(ok);
    LineWithoutCR(notFound);
    SplitFormattedResponse(ok, headers, body);
    SplitFormattedResponse(notFound, headers, body);
    assert |ok| != |notFound|;
    var bufa, bufb := FormatResponse(ok, headers, body), FormatResponse(notFound, headers, body);
    assert HeadLines(bufa)[0] == ok && HeadLines(bufb)[0] == notFound;
    StatusDecision(request, bufa, bufb, differ);
  }

  // ---------------------------------------------------------------------
  // The comparison as the relay runs it

  /** Copies a sequence into a fresh array. */
  method ToArray(s: seq<string>) returns (a: array<string>)
    ensures fresh(a) && a[..] == s
  {
    a := new string[|s|](i requires 0 <= i < |s| => s[i]);
  }

  /**
   * Sorts the header lines `lines[1..]` in place, leaving the status line
   * `lines[0]` alone, and joins them into the header block.
   */
  method SortAndJoin(lines: array<string>) returns (resp: string)
    requires lines.Length > 0
    modifies lines
    ensures lines[0] == old(lines[0])
    ensures lines[1..] == SortLines(old(lines[1..]))
    ensures resp == HeaderBlock(old(lines[1..]))
  {
    SortStrings(lines, 1);
    assert lines[0] == lines[..1][0];
    resp := Join(lines[1..], LineBreak) + LineBreak;
  }

  /**
   * Logs the request, the status lines, the header diff and whether the
   * bodies differ, in that order.
   */
  method LogComparison(request: string, statusA: string, statusB: string,
                       diff: seq<DiffOp>, bodyA: string, bodyB: string)
    returns (log: seq<string>)
    ensures log == ["Request:\n" + request, StatusMessage(statusA, statusB)]
                   + HeaderDiffLog(diff) + BodyLog(bodyA, bodyB)
  {
    log := ["Request:\n" + request];
    if statusA != statusB {
      log := log + ["Response code differs:\n- " + statusA + "\n+ " + statusB];
    } else {
      log := log + ["Response code: " + statusA];
    }
    var headerLog := PrintDiff(diff);
    log := log + headerLog;
    if bodyA != bodyB {
      log := log + ["Response body differs"];
    }
  }

  /**
   * Compares the two captures: cuts both responses, sorts the header
   * lines, diffs the header blocks and logs the outcome.
   */
  method CompareCaptures(request: string, bufa: string, bufb: string,
                         differ: (string, string) -> seq<DiffOp>)
    returns (log: seq<string>)
    ensures log == ComparisonLog(request, bufa, bufb, differ)
    ensures "Response missing" !in log
  {
    ghost var ma, mb := SplitMessage(bufa), SplitMessage(bufb);
    ghost var la, lb := HeadLines(bufa), HeadLines(bufb);
    var splita := SplitN(bufa, HeaderBoundary, 2) + ["", ""];
    var splitb := SplitN(bufb, HeaderBoundary, 2) + ["", ""];
    assert splita[0] == ma.head && splita[1] == ma.body;
    assert splitb[0] == mb.head && splitb[1] == mb.body;
    var linesa := ToArray(Split(splita[0], LineBreak));
    var linesb := ToArray(Split(splitb[0], LineBreak));
    assert linesa[..] == la && linesb[..] == lb;
    ComparisonLogShape(request, bufa, bufb, differ);
    if linesa.Length > 0 && linesb.Length > 0 {
      var respa := SortAndJoin(linesa);
      var respb := SortAndJoin(linesb);
      assert respa == HeaderBlock(la[1..]) && respb == HeaderBlock(lb[1..]);
      assert linesa[0] == la[0] && linesb[0] == lb[0];
      var diff := differ(respa, respb);
      log := LogComparison(request, linesa[0], linesb[0], diff, splita[1], splitb[1]);
    } else {
      log := ["Response missing"];
    }
  }

  /**
   * After the primary exchange: without a secondary backend nothing is
   * compared; otherwise waits for the secondary capture and compares.
   */
  method CompareResponses(request: string, bufa: string, secondary: Secondary,
                          differ: (string, string) -> seq<DiffOp>)
    returns (log: seq<string>)
    ensures log == SessionLog(request, bufa, secondary, differ)
    ensures secondary.Unreachable? ==> log == []
    ensures secondary.Connected? ==> |log| >= 2 && "Response missing" !in log
  {
    log := [];
    if secondary.Connected? {
      var buffb, _ := CaptureSecondary(secondary.stream);
      log := CompareCaptures(request, bufa, buffb, differ);
      StatusDecision(request, bufa, buffb, differ);
    }
  }
}
