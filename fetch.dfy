/**
  The per-URL processing of fetch.py: `fetch_url` (one request, save the page,
  optionally report metadata) and the batch loop `fetch_urls`, which skips
  invalid arguments and keeps going after a failed request.

  The outside world is an explicit value. The network is a `Server`: the
  reply it gives to the n-th request attempted in the run. The working directory is a map
  from file names to saved pages. Standard output and standard error are
  lists of the lines written to them. File times are logical: a page saved
  from the reply to the n-th request carries time n.
*/
module Fetch {
  import opened Wrappers
  import opened UrlPaths

  type Url = seq<byte>

  /** The `requests` exceptions raised before any response is read. */
  datatype TransportFailure = ConnectionError | Timeout | OtherRequestError

  /**
    What one request attempt brings back. An attempt `requests` refuses
    before any network I/O (a URL with no host) is `Unreachable(OtherRequestError)`.
  */
  datatype Reply = Response(status: int, text: seq<byte>) | Unreachable(cause: TransportFailure)

  /** The network: its reply to the request numbered `n` (from 0) for a URL. */
  type Server = (Url, nat) -> Reply

  /** The exceptions `fetch_urls` catches around `fetch_url`. */
  datatype FetchError = HttpError(status: int) | Transport(cause: TransportFailure)

  datatype SavedPage = SavedPage(text: seq<byte>, mtime: nat)

  /** The metadata block: the site and the time of the copy it replaced, if any. */
  datatype Metadata = Metadata(site: Url, lastFetch: Option<nat>)

  /** The lines written to standard error. */
  datatype Report = InvalidUrl(url: Url) | Unretrievable(url: Url, error: FetchError)

  datatype World = World(
    files: map<seq<byte>, SavedPage>,  // the working directory
    sent: seq<Url>,                    // every request attempted, in order
    stdout: seq<Metadata>,
    stderr: seq<Report>)

  /** The outcome of `fetch_url`: the new world and the exception it raised, if any. */
  datatype Attempt = Attempt(world: World, failure: Option<FetchError>)

  /** `Response.raise_for_status`: client (4xx) and server (5xx) errors raise. */
  predicate RaisesForStatus(status: int) {
    400 <= status < 600
  }

  /** The time of the saved copy at `path`, or `None` when there is none. */
  function LastModified(w: World, path: seq<byte>): (t: Option<nat>)
    ensures t.None? <==> path !in w.files
    ensures t.Some? ==> t.value == w.files[path].mtime
  {
    if path in w.files then Some(w.files[path].mtime) else None
  }

  /**
    `fetch_url`: request the URL, raise on a transport failure or an error
    status, otherwise read the previous copy's time, overwrite the copy at
    `convert_url_to_filepath(url)` and, when asked, report the metadata.
  */
  function FetchUrl(server: Server, w: World, url: Url, metadata: bool): (a: Attempt)
    ensures a.world.sent == w.sent + [url] && a.world.stderr == w.stderr
    ensures a.failure.None? <==>
              server(url, |w.sent|).Response? && !RaisesForStatus(server(url, |w.sent|).status)
    ensures a.failure.Some? ==> a.world.files == w.files && a.world.stdout == w.stdout
    ensures a.failure.None? ==>
              var path := ConvertUrlToFilepath(url);
              && a.world.files == w.files[path := SavedPage(server(url, |w.sent|).text, |w.sent|)]
              && a.world.stdout == w.stdout + (if metadata then [Metadata(url, LastModified(w, path))] else [])
  {
    var w1 := w.(sent := w.sent + [url]);
    match server(url, |w.sent|)
    case Unreachable(cause) => Attempt(w1, Some(Transport(cause)))
    case Response(status, text) =>
      if RaisesForStatus(status) then Attempt(w1, Some(HttpError(status)))
      else
        var path := ConvertUrlToFilepath(url);
        var last := LastModified(w, path);
        var w2 := w1.(files := w.files[path := SavedPage(text, |w.sent|)]);
        Attempt(if metadata then w2.(stdout := w.stdout + [Metadata(url, last)]) else w2, None)
  }

  /**
    The exception `fetch_url` raises: the transport failure `requests.get`
    raised, or the error status `raise_for_status` rejected.
  */
  lemma FetchUrlError(server: Server, w: World, url: Url, metadata: bool)
    ensures var a := FetchUrl(server, w, url, metadata);
            var reply := server(url, |w.sent|);
            && (reply.Unreachable? ==> a.failure == Some(Transport(reply.cause)))
            && (reply.Response? && RaisesForStatus(reply.status) ==> a.failure == Some(HttpError(reply.status)))
  {
  }

  /** One turn of the loop in `fetch_urls`. */
  function Process(server: Server, w: World, url: Url, metadata: bool): (r: World)
    ensures r.sent == w.sent + (if IsValidUrl(url) then [url] else [])
    ensures w.stderr <= r.stderr && w.stdout <= r.stdout
  {
    if !IsValidUrl(url) then w.(stderr := w.stderr + [InvalidUrl(url)])
    else
      var a := FetchUrl(server, w, url, metadata);
      match a.failure
      case None => a.world
      case Some(e) => a.world.(stderr := a.world.stderr + [Unretrievable(url, e)])
  }

  /** The whole of `fetch_urls`: every argument processed in order. */
  function Batch(server: Server, w: World, urls: seq<Url>, metadata: bool): (r: World)
    ensures w.stderr <= r.stderr && w.stdout <= r.stdout
    decreases |urls|
  {
    if urls == [] then w
    else Batch(server, Process(server, w, urls[0], metadata), urls[1..], metadata)
  }

  /** The arguments that pass `is_valid_url`, in their order. */
  function ValidUrls(urls: seq<Url>): (r: seq<Url>)
    ensures forall u | u in r :: IsValidUrl(u)
    ensures |r| <= |urls|
    decreases |urls|
  {
    if urls == [] then []
    else (if IsValidUrl(urls[0]) then [urls[0]] else []) + ValidUrls(urls[1..])
  }

  /** Each valid argument appears in `ValidUrls` as often as in the input, an invalid one never. */
  lemma {:induction false} ValidUrlsCount(urls: seq<Url>, u: Url)
    ensures multiset(ValidUrls(urls))[u] == if IsValidUrl(u) then multiset(urls)[u] else 0
    decreases |urls|
  {
    if urls != [] {
      ValidUrlsCount(urls[1..], u);
      assert urls == [urls[0]] + urls[1..];
    }
  }

  /** The arguments that fail `is_valid_url`, in their order. */
  function InvalidUrls(urls: seq<Url>): (r: seq<Url>)
    ensures forall u | u in r :: !IsValidUrl(u)
    ensures |r| + |ValidUrls(urls)| == |urls|
    decreases |urls|
  {
    if urls == [] then []
    else (if IsValidUrl(urls[0]) then [] else [urls[0]]) + InvalidUrls(urls[1..])
  }

  /** The URLs named by the "not a valid url" lines of a report list. */
  function InvalidLines(rs: seq<Report>): seq<Url>
    decreases |rs|
  {
    if rs == [] then []
    else (if rs[0].InvalidUrl? then [rs[0].url] else []) + InvalidLines(rs[1..])
  }

  /**
    `fetch_urls`: a loop over the arguments that reports and skips invalid
    ones and reports a failed fetch without leaving the loop.
  */
  method FetchUrls(server: Server, w: World, urls: seq<Url>, metadata: bool) returns (w': World)
    ensures w' == Batch(server, w, urls, metadata)
    ensures w'.sent == w.sent + ValidUrls(urls)
  {
    w' := w;
    for i := 0 to |urls|
      invariant Batch(server, w', urls[i..], metadata) == Batch(server, w, urls, metadata)
    {
      assert urls[i..][1..] == urls[i + 1..];
      var url := urls[i];
      if !IsValidUrl(url) {
        w' := w'.(stderr := w'.stderr + [InvalidUrl(url)]);
        continue;
      }
      var attempt := FetchUrl(server, w', url, metadata);
      w' := attempt.world;
      if attempt.failure.Some? {
        w' := w'.(stderr := w'.stderr + [Unretrievable(url, attempt.failure.value)]);
      }
    }
    BatchSent(server, w, urls, metadata);
  }

  lemma {:induction false} ValidUrlsAppend(a: seq<Url>, b: seq<Url>)
    ensures ValidUrls(a + b) == ValidUrls(a) + ValidUrls(b)
    decreases |a|
  {
    if a != [] {
      assert (a + b)[0] == a[0];
      assert (a + b)[1..] == a[1..] + b;
      ValidUrlsAppend(a[1..], b);
    } else {
      assert a + b == b;
    }
  }

  lemma {:induction false} InvalidLinesAppend(a: seq<Report>, b: seq<Report>)
    ensures InvalidLines(a + b) == InvalidLines(a) + InvalidLines(b)
    decreases |a|
  {
    if a != [] {
      assert (a + b)[0] == a[0];
      assert (a + b)[1..] == a[1..] + b;
      InvalidLinesAppend(a[1..], b);
    } else {
      assert a + b == b;
    }
  }

  /** The requests of a batch are exactly its valid arguments, each once, in order. */
  lemma {:induction false} BatchSent(server: Server, w: World, urls: seq<Url>, metadata: bool)
    ensures Batch(server, w, urls, metadata).sent == w.sent + ValidUrls(urls)
    decreases |urls|
  {
    if urls != [] {
      BatchSent(server, Process(server, w, urls[0], metadata), urls[1..], metadata);
    }
  }

  /** Every argument is either valid or rejected, as often as it occurs. */
  lemma {:induction false} ValidInvalidPartition(urls: seq<Url>)
    ensures multiset(ValidUrls(urls)) + multiset(InvalidUrls(urls)) == multiset(urls)
    decreases |urls|
  {
    if urls != [] {
      ValidInvalidPartition(urls[1..]);
      assert urls == [urls[0]] + urls[1..];
    }
  }

  /** An invalid argument never reaches the network. */
  lemma InvalidNeverFetched(server: Server, w: World, urls: seq<Url>, metadata: bool, u: Url)
    requires !IsValidUrl(u)
    ensures var sent := Batch(server, w, urls, metadata).sent;
            |sent| >= |w.sent| && u !in sent[|w.sent|..]
  {
    BatchSent(server, w, urls, metadata);
    assert Batch(server, w, urls, metadata).sent[|w.sent|..] == ValidUrls(urls);
  }

  /** Each invalid argument is reported once, in order, and nothing else is reported as invalid. */
  lemma {:induction false} BatchInvalidReports(server: Server, w: World, urls: seq<Url>, metadata: bool)
    ensures InvalidLines(Batch(server, w, urls, metadata).stderr) == InvalidLines(w.stderr) + InvalidUrls(urls)
    decreases |urls|
  {
    if urls != [] {
      var u := urls[0];
      ProcessInvalidLines(server, w, u, metadata);
      assert InvalidUrls(urls) == (if IsValidUrl(u) then [] else [u]) + InvalidUrls(urls[1..]);
      BatchInvalidReports(server, Process(server, w, u, metadata), urls[1..], metadata);
    }
  }

  /** One turn adds a "not a valid url" line exactly for an invalid argument. */
  lemma ProcessInvalidLines(server: Server, w: World, u: Url, metadata: bool)
    ensures InvalidLines(Process(server, w, u, metadata).stderr)
            == InvalidLines(w.stderr) + (if IsValidUrl(u) then [] else [u])
  {
    if !IsValidUrl(u) {
      InvalidLinesAppend(w.stderr, [InvalidUrl(u)]);
    } else if FetchUrl(server, w, u, metadata).failure.Some? {
      InvalidLinesAppend(w.stderr, [Unretrievable(u, FetchUrl(server, w, u, metadata).failure.value)]);
    }
  }

  /**
    Running a batch in two parts is running it whole: what happens to the
    first arguments, failures included, never stops the later ones.
  */
  lemma {:induction false} BatchAppend(server: Server, w: World, a: seq<Url>, b: seq<Url>, metadata: bool)
    ensures Batch(server, w, a + b, metadata) == Batch(server, Batch(server, w, a, metadata), b, metadata)
    decreases |a|
  {
    if a != [] {
      assert (a + b)[1..] == a[1..] + b;
      BatchAppend(server, Process(server, w, a[0], metadata), a[1..], b, metadata);
    } else {
      assert a + b == b;
    }
  }

  /** A failed fetch is reported, and every later argument is still processed. */
  lemma FailureContinues(server: Server, w: World, u: Url, rest: seq<Url>, metadata: bool)
    requires IsValidUrl(u) && FetchUrl(server, w, u, metadata).failure.Some?
    ensures var r := Batch(server, w, [u] + rest, metadata);
            && r.sent == w.sent + [u] + ValidUrls(rest)
            && |r.stderr| > |w.stderr|
            && r.stderr[|w.stderr|] == Unretrievable(u, FetchUrl(server, w, u, metadata).failure.value)
  {
    var a := FetchUrl(server, w, u, metadata);
    var w1 := Process(server, w, u, metadata);
    assert w1 == a.world.(stderr := w.stderr + [Unretrievable(u, a.failure.value)]);
    assert ([u] + rest)[0] == u && ([u] + rest)[1..] == rest;
    assert Batch(server, w, [u] + rest, metadata) == Batch(server, w1, rest, metadata);
    BatchSent(server, w1, rest, metadata);
  }

  /** A file whose name no valid argument maps to is left as it was. */
  lemma {:induction false} BatchKeepsOtherFiles(server: Server, w: World, urls: seq<Url>, metadata: bool, p: seq<byte>)
    requires forall u | u in urls && IsValidUrl(u) :: ConvertUrlToFilepath(u) != p
    ensures var files := Batch(server, w, urls, metadata).files;
            && (p in files <==> p in w.files)
            && (p in w.files ==> files[p] == w.files[p])
    decreases |urls|
  {
    if urls != [] {
      var w1 := Process(server, w, urls[0], metadata);
      assert p in w1.files <==> p in w.files;
      assert p in w.files ==> w1.files[p] == w.files[p];
      BatchKeepsOtherFiles(server, w1, urls[1..], metadata, p);
    }
  }

  /**
    One invalid argument followed by one valid one that the server answers
    without an error status: exactly one error line and one saved page.
  */
  lemma MixedBatch(server: Server, w: World, bad: Url, good: Url, metadata: bool)
    requires !IsValidUrl(bad) && IsValidUrl(good)
    requires server(good, |w.sent|).Response? && !RaisesForStatus(server(good, |w.sent|).status)
    ensures var r := Batch(server, w, [bad, good], metadata);
            && r.stderr == w.stderr + [InvalidUrl(bad)]
            && r.sent == w.sent + [good]
            && r.files == w.files[ConvertUrlToFilepath(good) := SavedPage(server(good, |w.sent|).text, |w.sent|)]
  {
    BatchOfTwo(server, w, bad, good, metadata);
  }

  /**
    Fetching two URLs that differ at most in their schemes, one after the
    other and both successfully, with metadata: the second report gives the
    time of the first save, and the second page replaces the first.
  */
  lemma RefetchReportsPreviousSave(server: Server, w: World, u1: Url, u2: Url)
    requires IsValidUrl(u1) && IsValidUrl(u2) && StripSchemes(u1) == StripSchemes(u2)
    requires server(u1, |w.sent|).Response? && !RaisesForStatus(server(u1, |w.sent|).status)
    requires server(u2, |w.sent| + 1).Response? && !RaisesForStatus(server(u2, |w.sent| + 1).status)
    ensures var path := ConvertUrlToFilepath(u1);
            var r := Batch(server, w, [u1, u2], true);
            && r.stdout == w.stdout + [Metadata(u1, LastModified(w, path)), Metadata(u2, Some(|w.sent|))]
            && path in r.files && r.files[path] == SavedPage(server(u2, |w.sent| + 1).text, |w.sent| + 1)
  {
    FilepathInjective(u1, u2);
    RefetchSamePath(server, w, u1, u2, ConvertUrlToFilepath(u1));
  }

  lemma RefetchSamePath(server: Server, w: World, u1: Url, u2: Url, path: seq<byte>)
    requires IsValidUrl(u1) && IsValidUrl(u2)
    requires ConvertUrlToFilepath(u1) == path && ConvertUrlToFilepath(u2) == path
    requires server(u1, |w.sent|).Response? && !RaisesForStatus(server(u1, |w.sent|).status)
    requires server(u2, |w.sent| + 1).Response? && !RaisesForStatus(server(u2, |w.sent| + 1).status)
    ensures var r := Batch(server, w, [u1, u2], true);
            && r.stdout == w.stdout + [Metadata(u1, LastModified(w, path)), Metadata(u2, Some(|w.sent|))]
            && path in r.files && r.files[path] == SavedPage(server(u2, |w.sent| + 1).text, |w.sent| + 1)
  {
    BatchOfTwo(server, w, u1, u2, true);
    var w1 := Process(server, w, u1, true);
    SavedTurnEffect(server, w, u1, path);
    SavedTurnEffect(server, w1, u2, path);
    assert LastModified(w1, path) == Some(|w.sent|);
    assert w.stdout + [Metadata(u1, LastModified(w, path))] + [Metadata(u2, Some(|w.sent|))]
        == w.stdout + [Metadata(u1, LastModified(w, path)), Metadata(u2, Some(|w.sent|))];
  }

  /** What one successful turn of the loop with metadata leaves behind. */
  lemma SavedTurnEffect(server: Server, w: World, u: Url, path: seq<byte>)
    requires IsValidUrl(u) && ConvertUrlToFilepath(u) == path
    requires server(u, |w.sent|).Response? && !RaisesForStatus(server(u, |w.sent|).status)
    ensures var r := Process(server, w, u, true);
            && r.sent == w.sent + [u]
            && r.stdout == w.stdout + [Metadata(u, LastModified(w, path))]
            && r.files == w.files[path := SavedPage(server(u, |w.sent|).text, |w.sent|)]
  {
    SavedTurn(server, w, u, true);
  }

  /** A turn whose fetch succeeds leaves exactly what `fetch_url` left. */
  lemma SavedTurn(server: Server, w: World, u: Url, metadata: bool)
    requires IsValidUrl(u) && FetchUrl(server, w, u, metadata).failure.None?
    ensures Process(server, w, u, metadata) == FetchUrl(server, w, u, metadata).world
  {
  }

  /** A batch of two arguments is two turns of the loop. */
  lemma BatchOfTwo(server: Server, w: World, u1: Url, u2: Url, metadata: bool)
    ensures Batch(server, w, [u1, u2], metadata)
            == Process(server, Process(server, w, u1, metadata), u2, metadata)
  {
    var w1 := Process(server, w, u1, metadata);
    assert Batch(server, w, [u1, u2], metadata) == Batch(server, w1, [u2], metadata) by {
      assert [u1, u2][0] == u1 && [u1, u2][1..] == [u2];
    }
    assert Batch(server, w1, [u2], metadata) == Batch(server, Process(server, w1, u2, metadata), [], metadata) by {
      assert [u2][0] == u2 && [u2][1..] == [];
    }
  }
}
