/**
  The string handling of fetch.py: which arguments count as URLs
  (`is_valid_url`) and the file name a page is saved under
  (`convert_url_to_filepath`).

  A Python `str` is represented by its UTF-8 bytes. The scheme pattern is
  pure ASCII and no byte of a multi-byte UTF-8 sequence is ASCII, so
  matching it on bytes finds exactly the matches found on code points.
*/
module UrlPaths {
  import opened Wrappers
  import opened Percent

  const HTTP: seq<byte> := [0x68, 0x74, 0x74, 0x70, 0x3A, 0x2F, 0x2F]         // "http://"
  const HTTPS: seq<byte> := [0x68, 0x74, 0x74, 0x70, 0x73, 0x3A, 0x2F, 0x2F]  // "https://"
  const TTP: seq<byte> := [0x74, 0x74, 0x70, 0x3A, 0x2F, 0x2F]               // "ttp://"
  const HTML: seq<byte> := [0x2E, 0x68, 0x74, 0x6D, 0x6C]                     // ".html"

  const SLASH: byte := 0x2F  // '/'
  const COLON: byte := 0x3A  // ':'
  const NUL: byte := 0x00
  const DOT: byte := 0x2E    // '.'

  /** `s.startswith(p)`, compared byte by byte. */
  function StartsWith(s: seq<byte>, p: seq<byte>): (r: bool)
    ensures r <==> p <= s
    decreases |p|
  {
    if p == [] then true
    else if s == [] then false
    else s[0] == p[0] && StartsWith(s[1..], p[1..])
  }

  /** `is_valid_url`: the argument must begin with "http://" or "https://". */
  function IsValidUrl(u: seq<byte>): (ok: bool)
    ensures ok <==> (|u| >= |HTTP| && u[..|HTTP|] == HTTP) || (|u| >= |HTTPS| && u[..|HTTPS|] == HTTPS)
  {
    StartsWith(u, HTTP) || StartsWith(u, HTTPS)
  }

  /**
    `re.sub(r"http://|https://", "", s)`: one left-to-right pass that
    deletes every non-overlapping occurrence of either scheme prefix,
    wherever it stands. After a deletion the scan resumes right after the
    deleted text, so the bytes around it are not re-examined together.
  */
  function StripSchemes(s: seq<byte>): (r: seq<byte>)
    ensures |r| <= |s|
    decreases |s|
  {
    if s == [] then []
    else if HTTP <= s then StripSchemes(s[|HTTP|..])
    else if HTTPS <= s then StripSchemes(s[|HTTPS|..])
    else [s[0]] + StripSchemes(s[1..])
  }

  /** Some position of `s` starts an occurrence of "http://" or "https://". */
  predicate ContainsScheme(s: seq<byte>) {
    exists i | 0 <= i < |s| :: HTTP <= s[i..] || HTTPS <= s[i..]
  }

  /**
    A name that a POSIX path holds as one component of the current
    directory: not empty, not "." or "..", no '/' and no NUL byte.
  */
  predicate IsFileName(p: seq<byte>) {
    && |p| > 0
    && p != [DOT] && p != [DOT, DOT]
    && forall i | 0 <= i < |p| :: p[i] != SLASH && p[i] != NUL
  }

  /** The part of a saved file's name before ".html". */
  function Stem(p: seq<byte>): seq<byte>
    requires |p| >= |HTML|
  {
    p[..|p| - |HTML|]
  }

  /**
    `convert_url_to_filepath`: the scheme-stripped URL, percent-encoded with
    no safe characters, followed by ".html". `Path(...)` leaves such a name
    as it is, since it is a single component.
  */
  function ConvertUrlToFilepath(url: seq<byte>): (p: seq<byte>)
    ensures |p| >= |HTML| && p[|p| - |HTML|..] == HTML
  {
    Quote(StripSchemes(url)) + HTML
  }

  /**
    The name always ends in ".html", its stem is a canonical percent-encoding
    (so it holds no '/' and no ':'), and it is a single file name.
  */
  lemma FilepathShape(url: seq<byte>)
    ensures var p := ConvertUrlToFilepath(url);
            && |p| >= |HTML| && p[|p| - |HTML|..] == HTML
            && Canonical(Stem(p))
            && IsFileName(p)
            && forall i | 0 <= i < |p| :: p[i] != COLON
  {
    NameShape(Quote(StripSchemes(url)));
  }

  /** Appending ".html" to a canonical encoding gives a name of that shape. */
  lemma NameShape(stem: seq<byte>)
    requires Canonical(stem)
    ensures var p := stem + HTML;
            && |p| >= |HTML| && p[|p| - |HTML|..] == HTML
            && Canonical(Stem(p))
            && IsFileName(p)
            && forall i | 0 <= i < |p| :: p[i] != COLON
  {
    CanonicalAlphabet(stem);
    var p := stem + HTML;
    assert Stem(p) == stem;
    forall i | 0 <= i < |p|
      ensures p[i] != SLASH && p[i] != NUL && p[i] != COLON
    {
      if i < |stem| {
        AlphabetIsSafe(stem[i]);
      } else {
        assert p[i] == HTML[i - |stem|];
      }
    }
  }

  lemma AlphabetIsSafe(b: byte)
    requires InAlphabet(b)
    ensures b != SLASH && b != NUL && b != COLON
  {
  }

  /** A string with no scheme occurrence is left as it is, and only such a string. */
  lemma {:induction false} StripSchemesIdentity(s: seq<byte>)
    ensures StripSchemes(s) == s <==> !ContainsScheme(s)
    decreases |s|
  {
    if ContainsScheme(s) {
      StripSchemesShortens(s);
    } else if s != [] {
      assert !(HTTP <= s[0..]) && !(HTTPS <= s[0..]);
      assert s[0..] == s;
      forall i | 0 <= i < |s[1..]|
        ensures !(HTTP <= s[1..][i..]) && !(HTTPS <= s[1..][i..])
      {
        assert s[1..][i..] == s[i + 1..];
      }
      StripSchemesIdentity(s[1..]);
    }
  }

  /** Every occurrence removed shortens the string. */
  lemma {:induction false} StripSchemesShortens(s: seq<byte>)
    requires ContainsScheme(s)
    ensures |StripSchemes(s)| < |s|
    decreases |s|
  {
    var i :| 0 <= i < |s| && (HTTP <= s[i..] || HTTPS <= s[i..]);
    if HTTP <= s || HTTPS <= s {
    } else {
      assert i != 0 by { assert s[0..] == s; }
      assert s[1..][i - 1..] == s[i..];
      StripSchemesShortens(s[1..]);
    }
  }

  /** A leading scheme is removed and the scan goes on with the rest. */
  lemma StripLeadingScheme(r: seq<byte>)
    ensures StripSchemes(HTTP + r) == StripSchemes(r)
    ensures StripSchemes(HTTPS + r) == StripSchemes(r)
  {
    assert HTTP <= HTTP + r;
    assert (HTTP + r)[|HTTP|..] == r;
    assert !(HTTP <= HTTPS + r) by { assert (HTTPS + r)[4] != HTTP[4]; }
    assert HTTPS <= HTTPS + r;
    assert (HTTPS + r)[|HTTPS|..] == r;
  }

  /** A string shorter than "http://" cannot hold a scheme and is left as it is. */
  lemma {:induction false} StripSchemesShort(t: seq<byte>)
    requires |t| < |HTTP|
    ensures StripSchemes(t) == t
    decreases |t|
  {
    if t != [] {
      StripSchemesShort(t[1..]);
    }
  }

  /** Bytes other than 'h' cannot start a scheme and are copied through. */
  lemma {:induction false} StripSchemesPassesOver(q: seq<byte>, r: seq<byte>)
    requires forall i | 0 <= i < |q| :: q[i] != HTTP[0]
    ensures StripSchemes(q + r) == q + StripSchemes(r)
    decreases |q|
  {
    if q != [] {
      assert (q + r)[1..] == q[1..] + r;
      StripSchemesPassesOver(q[1..], r);
      assert q + StripSchemes(r) == [q[0]] + (q[1..] + StripSchemes(r));
    } else {
      assert q + r == r;
    }
  }

  /**
    One pass only: removing "http://" from the middle of "hhttp://ttp://"
    joins its neighbours into a new "http://", which stays in the result.
  */
  lemma StripSchemesIsSinglePass(r: seq<byte>)
    ensures var s := [0x68] + (HTTP + (TTP + r));
            StripSchemes(s) == HTTP + StripSchemes(r) && ContainsScheme(StripSchemes(s))
  {
    var rest := HTTP + (TTP + r);
    StripLeadingScheme(TTP + r);
    TtpHasNoH();
    StripSchemesPassesOver(TTP, r);
    var s := [0x68] + rest;
    NoSchemeBeforeHttp(TTP + r);
    StripSchemesCopiesHead(s);
    assert s[1..] == rest;
    HttpSplits();
    AppendAssociative([0x68], TTP, StripSchemes(r));
    LeadingSchemeFound(StripSchemes(r));
  }

  // The next five lemmas are facts about the byte literals alone (and one
  // unfolding step). Each stands on its own so that the solver meets the
  // literals in a small context: inside a larger proof, the same facts about
  // sequence displays are very costly to establish.

  /** "http://" is 'h' followed by "ttp://". */
  lemma HttpSplits()
    ensures [0x68] + TTP == HTTP
  {
    var j: seq<byte> := [0x68] + TTP;
    assert |j| == |HTTP|;
    assert forall i | 0 <= i < |j| :: j[i] == HTTP[i];
  }

  /** No byte of "ttp://" is an 'h'. */
  lemma TtpHasNoH()
    ensures forall i | 0 <= i < |TTP| :: TTP[i] != HTTP[0]
  {
  }

  /** An 'h' in front of "http://" starts no scheme. */
  lemma NoSchemeBeforeHttp(x: seq<byte>)
    ensures !(HTTP <= [0x68] + (HTTP + x)) && !(HTTPS <= [0x68] + (HTTP + x))
  {
    var s := [0x68] + (HTTP + x);
    assert s[1] == 0x68;
  }

  /** Regrouping a concatenation (the sequence axiom, as a lemma of its own). */
  lemma AppendAssociative(a: seq<byte>, b: seq<byte>, c: seq<byte>)
    ensures a + (b + c) == (a + b) + c
  {
  }

  /** A first byte that does not start a scheme is copied, and the scan goes on. */
  lemma StripSchemesCopiesHead(s: seq<byte>)
    requires s != [] && !(HTTP <= s) && !(HTTPS <= s)
    ensures StripSchemes(s) == [s[0]] + StripSchemes(s[1..])
  {
  }

  lemma LeadingSchemeFound(x: seq<byte>)
    ensures ContainsScheme(HTTP + x)
  {
    assert HTTP <= (HTTP + x)[0..];
  }

  /** Every valid URL starts with one of the two schemes. */
  lemma ValidUrlScheme(u: seq<byte>)
    ensures IsValidUrl(u) <==> exists r :: u == HTTP + r || u == HTTPS + r
  {
    if IsValidUrl(u) {
      if |u| >= |HTTP| && u[..|HTTP|] == HTTP {
        assert u == u[..|HTTP|] + u[|HTTP|..];
      } else {
        assert u == u[..|HTTPS|] + u[|HTTPS|..];
      }
    }
  }

  /** The scheme does not decide where a page is saved. */
  lemma FilepathIgnoresScheme(r: seq<byte>)
    ensures ConvertUrlToFilepath(HTTP + r) == ConvertUrlToFilepath(r)
    ensures ConvertUrlToFilepath(HTTPS + r) == ConvertUrlToFilepath(r)
  {
    StripLeadingScheme(r);
  }

  /** Decoding the stem gives back the URL with every scheme occurrence removed. */
  lemma FilepathDecodes(url: seq<byte>)
    ensures Unquote(Stem(ConvertUrlToFilepath(url))) == StripSchemes(url)
  {
    var stem := Quote(StripSchemes(url));
    assert Stem(stem + HTML) == stem;
    UnquoteQuote(StripSchemes(url));
  }

  /** Two URLs share a file exactly when their scheme-stripped forms agree. */
  lemma FilepathInjective(u1: seq<byte>, u2: seq<byte>)
    ensures ConvertUrlToFilepath(u1) == ConvertUrlToFilepath(u2) <==> StripSchemes(u1) == StripSchemes(u2)
  {
    FilepathDecodes(u1);
    FilepathDecodes(u2);
  }

  /** Every file name of this shape is the name of some URL. */
  lemma FilepathOnto(p: seq<byte>)
    requires |p| >= |HTML| && p[|p| - |HTML|..] == HTML && Canonical(Stem(p))
    requires !ContainsScheme(Unquote(Stem(p)))
    ensures ConvertUrlToFilepath(Unquote(Stem(p))) == p
  {
    var u := Unquote(Stem(p));
    StripSchemesIdentity(u);
    QuoteUnquote(Stem(p));
    assert p == Stem(p) + HTML;
  }
}
