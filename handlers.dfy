/** The decisions the listeners of one embedded view take: which navigations
    are reported, which load failures bring up the error page, and how many
    empty style arguments a console message needs for its `%c` directives. */
module Handlers {
  import opened Wrappers

  /** What the controller emits to its subscribers. */
  datatype Emitted =
    | DidNavigate(serverUrl: string, url: string)
    | DomReady(serverUrl: string)

  /** What a listener does to its own view: only `loadURL` of the bundled
      `loading-error.html` page is modelled. */
  datatype Effect = LoadErrorPage

  // ---------------------------------------------------------------------
  // did-navigate-in-page

  /** `search` occurs in `s` starting at position `k`. */
  predicate OccursAt(s: string, search: string, k: int)
  {
    0 <= k && k + |search| <= |s| && s[k..k + |search|] == search
  }

  /** `s.indexOf(search, from)` for `from <= |s|`: the first position at or
      after `from` where `search` occurs, or -1. */
  function IndexOfFrom(s: string, search: string, from: nat): (r: int)
    requires from <= |s|
    ensures r == -1 || (from <= r && OccursAt(s, search, r))
    ensures forall k :: from <= k < (if r == -1 then |s| + 1 else r) ==> !OccursAt(s, search, k)
    decreases |s| - from
  {
    if from + |search| > |s| then -1
    else if s[from..from + |search|] == search then from
    else IndexOfFrom(s, search, from + 1)
  }

  /** `s.indexOf(search)`: the first position where `search` occurs in `s`, or -1. */
  function IndexOf(s: string, search: string): (r: int)
    ensures r == -1 || OccursAt(s, search, r)
    ensures forall k :: 0 <= k < (if r == -1 then |s| + 1 else r) ==> !OccursAt(s, search, k)
  {
    IndexOfFrom(s, search, 0)
  }

  /** The `did-navigate-in-page` listener of the view for `serverUrl`: a
      navigation to `url` is reported exactly when `serverUrl` is a prefix of
      `url` (the test `url.indexOf(serverUrl) === 0`). */
  function HandleDidNavigateInPage(serverUrl: string, url: string): (e: Option<Emitted>)
    ensures e.Some? <==> serverUrl <= url
    ensures e.Some? ==> e.value == DidNavigate(serverUrl, url)
  {
    if IndexOf(url, serverUrl) == 0 then Some(DidNavigate(serverUrl, url)) else None
  }

  // ---------------------------------------------------------------------
  // did-fail-load and did-get-response-details

  /** The `did-fail-load` listener. */
  function HandleDidFailLoad(isMainFrame: bool): Option<Effect>
  {
    if isMainFrame then Some(LoadErrorPage) else None
  }

  /** The `did-get-response-details` listener. */
  function HandleDidGetResponseDetails(resourceType: string, httpResponseCode: int): Option<Effect>
  {
    if resourceType == "mainFrame" && httpResponseCode >= 500 then Some(LoadErrorPage) else None
  }

  /** A failed load shows the error page exactly when it is the main frame's. */
  lemma FailLoadErrorPage(isMainFrame: bool)
    ensures HandleDidFailLoad(isMainFrame) == Some(LoadErrorPage) <==> isMainFrame
    ensures !isMainFrame ==> HandleDidFailLoad(isMainFrame).None?
  {
  }

  /** A response shows the error page only for the main frame and only for a
      server error: sub-resources and every status below 500 (redirects,
      client errors) leave the page alone, and 500 itself and every larger
      status replace it. */
  lemma ResponseErrorPage(resourceType: string, code: int, higher: int)
    requires code <= higher
    ensures resourceType != "mainFrame" ==> HandleDidGetResponseDetails(resourceType, code).None?
    ensures code < 500 ==> HandleDidGetResponseDetails(resourceType, code).None?
    ensures HandleDidGetResponseDetails("mainFrame", 500) == Some(LoadErrorPage)
    ensures HandleDidGetResponseDetails(resourceType, code).Some? ==>
              HandleDidGetResponseDetails(resourceType, higher) == Some(LoadErrorPage)
  {
  }

  // ---------------------------------------------------------------------
  // console-message: the `%c` directives of a message

  /** `message.match(/%c/g)` as a list: the global regular expression scans
      left to right and resumes after each match. */
  function MatchAll(message: string): seq<string>
    decreases |message|
  {
    if |message| < 2 then []
    else if message[0] == '%' && message[1] == 'c' then ["%c"] + MatchAll(message[2..])
    else MatchAll(message[1..])
  }

  /** `message.match(/%c/g)`: `None` (JavaScript's `null`) when nothing matches. */
  function Match(message: string): Option<seq<string>>
  {
    var ms := MatchAll(message);
    if ms == [] then None else Some(ms)
  }

  /** A reference count: the number of positions at which `%c` starts. */
  function Occurrences(s: string): nat
  {
    if |s| < 2 then 0
    else (if s[0] == '%' && s[1] == 'c' then 1 else 0) + Occurrences(s[1..])
  }

  /** Because `%c` cannot overlap itself, the non-overlapping scan of the
      regular expression finds every occurrence. */
  lemma {:induction false} MatchAllIsOccurrences(message: string)
    ensures |MatchAll(message)| == Occurrences(message)
    ensures forall i :: 0 <= i < |MatchAll(message)| ==> MatchAll(message)[i] == "%c"
    decreases |message|
  {
    if |message| >= 2 {
      if message[0] == '%' && message[1] == 'c' {
        MatchAllIsOccurrences(message[2..]);
        assert message[1..][1..] == message[2..];
        if |message[1..]| >= 2 {
          assert message[1..][0] == 'c';
        }
      } else {
        MatchAllIsOccurrences(message[1..]);
      }
    }
  }

  /** `danglingFormatting`: one empty style argument per `%c` in the message. */
  function DanglingFormatting(message: string): (r: seq<string>)
    ensures |r| == Occurrences(message)
    ensures forall i :: 0 <= i < |r| ==> r[i] == ""
  {
    MatchAllIsOccurrences(message);
    var ms := match Match(message) case None => [] case Some(found) => found;
    seq(|ms|, _ => "")
  }

  /** `%c` directives of a concatenation are those of its parts, unless a `%`
      at the end of the first meets a `c` at the start of the second. */
  lemma {:induction false} OccurrencesAppend(a: string, b: string)
    requires !(|a| > 0 && |b| > 0 && a[|a| - 1] == '%' && b[0] == 'c')
    ensures Occurrences(a + b) == Occurrences(a) + Occurrences(b)
    decreases |a|
  {
    if a == [] {
      assert a + b == b;
    } else if |a| == 1 {
      if b != [] {
        assert (a + b)[1..] == b;
      } else {
        assert a + b == a;
      }
    } else {
      OccurrencesAppend(a[1..], b);
      assert (a + b)[1..] == a[1..] + b;
    }
  }

  /** A string without `%` holds no `%c` directive. */
  lemma {:induction false} NoPercentNoOccurrences(s: string)
    requires forall i :: 0 <= i < |s| ==> s[i] != '%'
    ensures Occurrences(s) == 0
    decreases |s|
  {
    if |s| >= 2 {
      NoPercentNoOccurrences(s[1..]);
    }
  }

  /** The decimal text of a line number, as a template literal renders it. */
  function Decimal(n: nat): (r: string)
    ensures forall i :: 0 <= i < |r| ==> '0' <= r[i] <= '9'
  {
    var digit := ['0' + (n % 10) as char];
    if n < 10 then digit else Decimal(n / 10) + digit
  }

  /** The format string handed to `console.log` for one console message. */
  function ConsoleFormat(serverUrl: string, message: string, sourceId: string, line: nat): string
  {
    "%c" + serverUrl + "\t%c" + message + "\n" + sourceId + " : " + Decimal(line)
  }

  /** The number of style arguments after the format string: the bold
      server name, the level colour, and the dangling ones. */
  function StyleArgumentCount(message: string): nat
  {
    2 + |DanglingFormatting(message)|
  }

  /** The directives of the format string are the two the listener writes,
      those of the message, and any that the server URL or the source
      identifier happen to contain; so the style arguments match the
      directives exactly when neither of those holds a `%c`. */
  lemma ConsoleFormatDirectives(serverUrl: string, message: string, sourceId: string, line: nat)
    ensures Occurrences(ConsoleFormat(serverUrl, message, sourceId, line)) ==
              StyleArgumentCount(message) + Occurrences(serverUrl) + Occurrences(sourceId)
    ensures (Occurrences(ConsoleFormat(serverUrl, message, sourceId, line)) == StyleArgumentCount(message))
              <==> (Occurrences(serverUrl) == 0 && Occurrences(sourceId) == 0)
  {
    var digits := Decimal(line);
    NoPercentNoOccurrences(digits);
    NoPercentNoOccurrences("\t");
    NoPercentNoOccurrences("\n");
    NoPercentNoOccurrences(" : ");
    var p1 := "%c" + serverUrl;
    OccurrencesAppend("%c", serverUrl);
    var p2 := p1 + "\t%c";
    OccurrencesAppend(p1, "\t%c");
    var p3 := p2 + message;
    OccurrencesAppend(p2, message);
    var p4 := p3 + "\n";
    OccurrencesAppend(p3, "\n");
    var p5 := p4 + sourceId;
    OccurrencesAppend(p4, sourceId);
    var p6 := p5 + " : ";
    OccurrencesAppend(p5, " : ");
    OccurrencesAppend(p6, digits);
  }

}
