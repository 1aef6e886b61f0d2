# fetch: verified model of URL handling and the batch loop

`fetch.py` is a command-line program. It downloads web pages and saves each
one in the working directory under a name derived from its URL. This project
models the program's logic in Dafny:

- **`is_valid_url`** (`UrlPaths.IsValidUrl`) accepts an argument only if it
  begins with `http://` or `https://`.
- **`convert_url_to_filepath`** (`UrlPaths.ConvertUrlToFilepath`) builds the
  file name in three steps:
  - a single left-to-right `re.sub` pass deletes every occurrence of either
    scheme prefix (`UrlPaths.StripSchemes`);
  - `urllib.parse.quote(_, safe="")` percent-encodes the rest as in section
    2.1 of RFC 3986 (`Percent.Quote`);
  - `.html` is appended.

  The matching decoder (`Percent.Unquote`, as `unquote_to_bytes` does it)
  exists to state the round trip.
- **`fetch_url`** (`Fetch.FetchUrl`) attempts one request (`requests.get`). When the response is
  neither a transport failure nor an error status, it reads the time of the
  previous copy, overwrites the copy, and, when asked, reports the metadata.
- **`fetch_urls`** (`Fetch.FetchUrls`, a method with the source's `for` loop
  and `continue`) reports and skips invalid arguments, and reports a failed
  fetch without leaving the loop. It is proved equal to the recursive
  specification `Fetch.Batch`.

A Python `str` is modelled by its UTF-8 bytes (`Wrappers.byte`). The scheme
pattern is ASCII, so `re.sub` finds the same matches on bytes as on code
points, and `quote` itself works on the UTF-8 bytes.

The outside world is an explicit value, `Fetch.World`:

- the network is a parameter, `Server`, giving the reply to the n-th request
  attempted in the run. An attempt that `requests` refuses before any network
  I/O (such as `InvalidURL` for "http://", which has no host) is a reply
  `Unreachable(OtherRequestError)`;
- the working directory is a map from file names to saved pages;
- standard output and standard error are lists of what was written to them;
- file modification times are logical: a page saved from the reply to the
  n-th request carries time n.

## Model

| member | source | states |
|---|---|---|
| UrlPaths.IsValidUrl | fetch.py:50-54 | An argument is accepted exactly when its first bytes are "http://" or when they are "https://"; everything else is rejected |
| UrlPaths.ValidUrlScheme | fetch.py:50-54 | A string is valid exactly when it is "http://" or "https://" followed by some rest |
| UrlPaths.StartsWith | fetch.py:51 | `startswith` holds exactly when the pattern is a prefix of the string |
| UrlPaths.StripSchemes | fetch.py:15 | The single `re.sub` pass never lengthens its input. Which bytes it deletes and which it keeps is stated by StripSchemesIdentity, StripSchemesShortens, StripLeadingScheme, StripSchemesPassesOver and StripSchemesIsSinglePass |
| UrlPaths.StripSchemesIdentity | fetch.py:15 | Scheme removal leaves a string unchanged exactly when no position of it starts "http://" or "https://" |
| UrlPaths.StripSchemesShortens | fetch.py:15 | A string holding a scheme occurrence becomes strictly shorter |
| UrlPaths.StripLeadingScheme | fetch.py:15 | A leading "http://" or "https://" is deleted and the scan continues with the rest |
| UrlPaths.StripSchemesPassesOver | fetch.py:15 | Bytes other than 'h' start no match and are copied to the output unchanged |
| UrlPaths.StripSchemesShort | fetch.py:15 | A string shorter than "http://" holds no match and is left as it is |
| UrlPaths.StripSchemesIsSinglePass | fetch.py:15 | The substitution is one pass: in "hhttp://ttp://…" the deleted middle joins its neighbours into a new "http://", which is kept in the result |
| UrlPaths.ConvertUrlToFilepath | fetch.py:14-16 | The name always ends in ".html". That its stem is a single canonical component is stated by FilepathShape; that it decodes to the scheme-stripped URL, by FilepathDecodes; and that it is shared exactly by URLs with equal scheme-stripped forms, by FilepathInjective |
| UrlPaths.FilepathShape | fetch.py:14-16 | The file name ends in ".html", its stem is a canonical percent-encoding, it holds no ':', no '/' and no NUL, and it is never empty, "." or "..", so it is a single path component |
| UrlPaths.NameShape | fetch.py:15-16 | Any canonical encoding followed by ".html" has that shape |
| UrlPaths.FilepathDecodes | fetch.py:15 | Percent-decoding the stem gives back the URL with every scheme occurrence removed |
| UrlPaths.FilepathInjective | fetch.py:14-16 | Two URLs get the same file name exactly when their scheme-stripped forms are equal |
| UrlPaths.FilepathIgnoresScheme | fetch.py:15 | "http://" + r, "https://" + r and r itself all get the same file name |
| UrlPaths.FilepathOnto | fetch.py:14-16 | Every name ending in ".html" with a canonical stem is the file name of the URL that stem decodes to, unless that decoding still holds a scheme |
| Percent.Quote | fetch.py:15 | The encoding is canonical: unreserved bytes, and `%` escapes with upper-case digits for bytes that are not unreserved |
| Percent.UnquoteQuote | fetch.py:15 | Decoding what `quote` wrote gives back the original bytes |
| Percent.QuoteInjective | fetch.py:15 | Two byte strings have the same encoding exactly when they are equal |
| Percent.QuoteUnquote | fetch.py:15 | Every canonical string is the encoding of its decoding, so encoding is a bijection onto canonical strings |
| Percent.CanonicalAlphabet | fetch.py:15 | A canonical string holds only unreserved bytes, '%' and upper-case hex digits |
| Percent.QuoteUnreserved | fetch.py:15 | Encoding leaves a string unchanged exactly when every byte of it is unreserved |
| Percent.QuoteLonger | fetch.py:15 | Encoding never shortens a string |
| Percent.HexValue | fetch.py:15 | A byte has a hex value exactly when it is a digit or a letter a-f of either case, and the value is below 16 |
| Fetch.LastModified | fetch.py:29-32 | The previous time is None exactly when no copy is saved under the name (`FileNotFoundError`), and otherwise it is that copy's time |
| Fetch.FetchUrl | fetch.py:24-47 | Every call attempts exactly one request and writes nothing to stderr. It fails exactly on a transport failure or a 4xx/5xx status, and a failure changes neither the files nor stdout. On success, only the file named after the URL changes: it now holds the reply, dated by this request. With metadata, exactly one block is printed, and it gives the time of the previous copy or None |
| Fetch.FetchUrlError | fetch.py:25-26 | The exception raised is the transport failure of the request when there was no response, and `HTTPError` carrying the status when the status is 4xx/5xx |
| Fetch.Process | fetch.py:58-70 | One turn attempts a request exactly for a valid argument, and only appends to stdout and stderr |
| Fetch.Batch | fetch.py:57-70 | Processing the arguments only appends to stdout and stderr |
| Fetch.FetchUrls | fetch.py:57-70 | The loop leaves the world that `Batch` describes, and the requests it attempts are exactly the valid arguments, in order |
| Fetch.BatchSent | fetch.py:57-63 | The requests attempted in a run are exactly its valid arguments, each once, in input order |
| Fetch.ValidUrls | fetch.py:58-60 | The arguments that pass validation: all valid, and no more of them than there are arguments |
| Fetch.ValidUrlsCount | fetch.py:58-63 | Each valid argument is attempted as many times as it occurs among the arguments, and an invalid one never |
| Fetch.InvalidUrls | fetch.py:58-60 | The rejected arguments are all invalid, and together with the valid ones they account for every argument |
| Fetch.ValidInvalidPartition | fetch.py:58-60 | Every argument lands in exactly one of the two lists, as often as it occurs: the valid and the rejected arguments together are the arguments, as a multiset |
| Fetch.InvalidNeverFetched | fetch.py:58-63 | An invalid argument never reaches the network |
| Fetch.BatchInvalidReports | fetch.py:52-60 | Each invalid argument gets one "not a valid url" line, in order, and no other argument gets one |
| Fetch.ProcessInvalidLines | fetch.py:52-60 | One turn adds a "not a valid url" line exactly for an invalid argument |
| Fetch.BatchAppend | fetch.py:57-70 | Running the arguments in two parts is the same as running them at once, so no rejection and no caught failure of an earlier argument stops a later one (the uncaught over-long-name error is not modelled, see Left out) |
| Fetch.FailureContinues | fetch.py:62-70 | A failed fetch is reported on stderr with its error, and every later valid argument is still fetched |
| Fetch.BatchKeepsOtherFiles | fetch.py:27-34 | A file that no VALID argument's name maps to is neither created nor changed, even when an invalid argument maps to it |
| Fetch.MixedBatch | fetch.py:57-70 | An invalid argument followed by a successful valid one gives exactly one error line, one request and one saved page |
| Fetch.RefetchReportsPreviousSave | fetch.py:27-46 | For two successful fetches of URLs that differ only in their schemes, with metadata, the second report gives the time of the first save, and the second page replaces the first |
| Fetch.SavedTurnEffect | fetch.py:24-47 | A successful turn with metadata adds its request, replaces exactly the URL's file, and prints one block dated by the previous copy |

## Left out

- HTTP: `requests.get` is the `Server` parameter. Its reply is either a status with a body or a transport failure. `ConnectionError`, `Timeout` and other `RequestException`s are modelled as one `TransportFailure` each. The exception text in the error line is not modelled.
- `raise_for_status` is library behaviour. It is modelled as raising exactly for statuses 400 to 599.
- File system: `getmtime`, `mkdir` and `write_text` are modelled as a map update. Time is a logical clock, the index of the request. Errors other than `FileNotFoundError` (permissions, a full disk) are not modelled; nor is `mkdir` on the current directory, which cannot fail here.
- Fetch.FetchUrl: a file name longer than the file system's limit (255 bytes on common Linux file systems) is not modelled. `quote` writes three bytes for every reserved byte, so "https://example.com/" followed by 80 slashes gets a 259-byte name: "example.com", 81 times "%2F", then ".html". When the server answers such a URL without an error status (fetch.py:26), `getmtime` (fetch.py:30) raises `OSError` after the request was made. That error is neither `FileNotFoundError` (fetch.py:31) nor a `requests` exception (fetch.py:64-69), so it ends the whole run and no later argument is processed. The model instead saves the page and continues, so `Batch`, `BatchAppend`, `FailureContinues` and `BatchSent` describe only runs in which every name fits.
- The `if last_modified:` test and the `strftime` formatting are not modelled. `Metadata` keeps the raw time, so a previous copy dated 0 (which the source prints unformatted) is not distinguished.
- The counts of `<a>` and `<img>` tags come from BeautifulSoup, which is not part of this model. `Metadata` keeps only the site and the previous time.
- Output text is abstracted: stdout is a list of metadata blocks, and stderr is a list of reports, not formatted lines.
- `main` and its argument parsing are not modelled. `--metadata` absent (`None`) acts as false.
- Arguments that are not valid UTF-8 are not modelled. Python decodes such argument bytes with surrogateescape. An invalid one is rejected by `is_valid_url` (fetch.py:59-60) before anything else happens, as in the model. A valid one goes to `requests.get` first, and a transport failure or an error status there is caught (fetch.py:64-69), as in the model. But when the server answers it without an error status, `quote` (fetch.py:15) cannot encode the lone surrogates and raises an uncaught `UnicodeEncodeError`, and the run ends. Inputs are modelled as byte strings, so `Batch`, `BatchSent` and `FailureContinues` describe only runs in which no valid argument that gets a non-error reply holds such bytes.
- File names are compared byte for byte, as on a case-sensitive file system. On a case-insensitive one (the macOS and Windows defaults), "http://A" and "http://a" get the names "A.html" and "a.html", which are the same file. There `LastModified` and `BatchKeepsOtherFiles` describe a different program.
- `Path(...)` is taken to leave the encoded name as it is. `FilepathShape` shows the name is a single component, so `Path` does no normalisation.
- UrlPaths.StripSchemes: its own contract only bounds the length. What the substitution does is stated in the StripSchemes lemmas above.
- UrlPaths.ConvertUrlToFilepath: its own contract states only the ".html" suffix. Its other properties are the `Filepath…` lemmas, which keeps them out of the proofs about the batch loop.
