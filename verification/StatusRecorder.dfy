/** The recorder of served requests and registered prefixes, and the status page that shows them. */
module StatusRecorder {
  import opened Text

  datatype Request = Request(url: string, code: nat)

  datatype Route = Route(uri: string, handler: string)

  /** The conversion of a `size_t` to `int`. */
  function NarrowToInt(n: nat): (i: int)
    ensures INT_MIN <= i <= INT_MAX
    ensures n <= INT_MAX ==> i == n
  {
    var low := n % 0x1_0000_0000;
    if low <= INT_MAX then low else low - 0x1_0000_0000
  }

  /** The atomic steps that change the two lists. */
  datatype Event = Served(request: Request) | Registered(route: Route)

  function RequestsAt(log: seq<Event>): seq<Request>
    decreases |log|
  {
    if log == [] then []
    else if Back(log).Served? then RequestsAt(Front(log)) + [Back(log).request]
    else RequestsAt(Front(log))
  }

  function PrefixesAt(log: seq<Event>): seq<Route>
    decreases |log|
  {
    if log == [] then []
    else if Back(log).Registered? then PrefixesAt(Front(log)) + [Back(log).route]
    else PrefixesAt(Front(log))
  }

  /** Each method holds one lock throughout, so each is one atomic step. */
  class Recorder {
    var url_response_list_: seq<Request>
    var prefix_handler_list_: seq<Route>
    /** The steps so far that changed the lists. */
    ghost var log: seq<Event>

    ghost predicate Valid()
      reads this
    {
      url_response_list_ == RequestsAt(log) && prefix_handler_list_ == PrefixesAt(log)
    }

    constructor ()
      ensures Valid() && log == []
    {
      url_response_list_, prefix_handler_list_, log := [], [], [];
    }

    method RequestRecorder(url: string, code: nat)
      requires Valid()
      modifies this`url_response_list_, this`log
      ensures Valid() && log == old(log) + [Served(Request(url, code))]
      ensures url_response_list_ == old(url_response_list_) + [Request(url, code)]
    {
      url_response_list_ := url_response_list_ + [Request(url, code)];
      log := log + [Served(Request(url, code))];
      assert Front(log) == old(log);
    }

    method PrefixRecorder(route: Route)
      requires Valid()
      modifies this`prefix_handler_list_, this`log
      ensures Valid() && log == old(log) + [Registered(route)]
      ensures prefix_handler_list_ == old(prefix_handler_list_) + [route]
    {
      prefix_handler_list_ := prefix_handler_list_ + [route];
      log := log + [Registered(route)];
      assert Front(log) == old(log);
    }

    method GetUrlResponseListSize() returns (n: int)
      ensures n == NarrowToInt(|url_response_list_|)
    {
      n := NarrowToInt(|url_response_list_|);
    }
  }

  // ----- the page -----

  const HEAD := "<!DOCTYPE html><html><head></head><body><h1>Server Status</h1><p>Number of request: "
  const REQUESTS_HEAD := "</p>" + "<table>" + "<tr><th>URL</th><th>Response Code</th></tr>"
  const NO_REQUEST := "</tr><td colspan='2'>No Request</td><tr>"
  const PREFIXES_HEAD := "</table>" + "<p>URL Prefix and Handler Matching</p>" + "<table>"
                         + "<tr><th>Prefix</th><th>Handler</th></tr>"
  const NO_PREFIX := "</tr><td colspan= '2'>Empty</td><tr>"
  const FOOT := "</table></body></html>"

  function RowText(left: string, right: string): string {
    "<tr><td>" + left + "</td><td>" + right + "</td></tr>"
  }

  function RequestRows(list: seq<Request>): string
    decreases |list|
  {
    if list == [] then ""
    else RequestRows(Front(list)) + RowText(Back(list).url, Decimal(Back(list).code))
  }

  function PrefixRows(list: seq<Route>): string
    decreases |list|
  {
    if list == [] then ""
    else PrefixRows(Front(list)) + RowText(Back(list).uri, Back(list).handler)
  }

  /** What a status page shows: a number, and one row for each of some requests and prefixes. */
  datatype Page = Page(number: nat, requests: seq<Request>, prefixes: seq<Route>) {
    function Text(): string {
      HEAD + Decimal(number) + REQUESTS_HEAD
      + (if number == 0 then NO_REQUEST else RequestRows(requests))
      + PREFIXES_HEAD
      + (if prefixes == [] then NO_PREFIX else PrefixRows(prefixes))
      + FOOT
    }
  }

  /** The page built from what the three reads returned; None when the process exits instead. */
  function PageOf(count: int, requests: seq<Request>, prefixes: seq<Route>): Option<Page> {
    if count < 0 then None else Some(Page(count, if count == 0 then [] else requests, prefixes))
  }

  /** Appends the parts of the page, row by row. */
  method BuildPage(count: int, requests: seq<Request>, prefixes: seq<Route>) returns (r: Option<string>)
    ensures r == match PageOf(count, requests, prefixes) case None => None case Some(page) => Some(page.Text())
  {
    hide RowText, Decimal;
    if count < 0 { return None; }
    var body := HEAD + Decimal(count) + REQUESTS_HEAD;
    ghost var top := body;
    if count == 0 {
      body := body + NO_REQUEST;
    } else {
      assert requests[..0] == [];
      for i := 0 to |requests|
        invariant body == top + RequestRows(requests[..i])
      {
        assert Front(requests[..i + 1]) == requests[..i];
        body := body + RowText(requests[i].url, Decimal(requests[i].code));
      }
      assert requests[..|requests|] == requests;
    }
    body := body + PREFIXES_HEAD;
    ghost var middle := body;
    if |prefixes| == 0 {
      body := body + NO_PREFIX;
    } else {
      assert prefixes[..0] == [];
      for i := 0 to |prefixes|
        invariant body == middle + PrefixRows(prefixes[..i])
      {
        assert Front(prefixes[..i + 1]) == prefixes[..i];
        body := body + RowText(prefixes[i].uri, prefixes[i].handler);
      }
      assert prefixes[..|prefixes|] == prefixes;
    }
    body := body + FOOT;
    return Some(body);
  }

  /** A status request with no other thread between its reads. */
  method HandleRequest(recorder: Recorder) returns (r: Option<string>)
    ensures var list := recorder.url_response_list_;
            r == match PageOf(NarrowToInt(|list|), list, recorder.prefix_handler_list_)
                 case None => None
                 case Some(page) => Some(page.Text())
  {
    var count := recorder.GetUrlResponseListSize();
    r := BuildPage(count, recorder.url_response_list_, recorder.prefix_handler_list_);
  }

  // ----- a page beside recording threads -----

  /** The lists only ever grow at the end. */
  lemma {:induction false} ListsOnlyGrow(log: seq<Event>, i: nat)
    requires i <= |log|
    ensures RequestsAt(log[..i]) <= RequestsAt(log) && PrefixesAt(log[..i]) <= PrefixesAt(log)
    decreases |log|
  {
    if i == |log| {
      assert log[..i] == log;
    } else {
      assert Front(log)[..i] == log[..i];
      ListsOnlyGrow(Front(log), i);
    }
  }

  /** The page of a request whose three reads happen at moments `i`, `j` and `k` of a run. */
  function PageDuring(log: seq<Event>, i: nat, j: nat, k: nat): Option<Page>
    requires i <= j <= k <= |log|
  {
    PageOf(NarrowToInt(|RequestsAt(log[..i])|), RequestsAt(log[..j]), PrefixesAt(log[..k]))
  }

  /** Whatever other threads record between the reads, the number printed is at most the number of
      rows shown; when it is positive, the rows begin with the requests that were counted, all of
      them exactly when their number fits an `int`. The prefixes shown include all that were
      registered when the page was begun. */
  lemma PageIsConsistent(log: seq<Event>, i: nat, j: nat, k: nat)
    requires i <= j <= k <= |log| && PageDuring(log, i, j, k).Some?
    ensures var page := PageDuring(log, i, j, k).value;
            var counted := RequestsAt(log[..i]);
            && page.number <= |page.requests|
            && page.requests[..page.number] <= counted
            && (page.requests[..page.number] == counted <==> |counted| <= INT_MAX)
            && (page.number > 0 ==> counted <= page.requests)
            && PrefixesAt(log[..i]) <= page.prefixes
  {
    var counted := RequestsAt(log[..i]);
    assert log[..j][..i] == log[..i] && log[..k][..i] == log[..i];
    ListsOnlyGrow(log[..j], i);
    ListsOnlyGrow(log[..k], i);
    assert counted <= RequestsAt(log[..j]);
  }
}
