/**
 * Where a redirect built with `new URL(reference, base)` points. The URL
 * parser first strips leading and trailing C0 controls and spaces from the
 * reference and removes every tab and newline from it; the cleaned
 * reference is then classified. Only the distinction that matters for
 * where the browser is sent is kept: a reference with its own scheme
 * determines the whole target, a reference that starts with two slashes
 * keeps the base's scheme but names its own host, and every other
 * reference is resolved against the request and stays on the request's
 * origin.
 */
module Url {

  datatype Target =
    | Local(reference: string)        // resolved against the request URL: same origin
    | NetworkPath(reference: string)  // `//host/...`: same scheme, host taken from the reference
    | Absolute(url: string)           // `scheme:...`: scheme and authority come from the reference, not the request

  /** A C0 control (U+0000 to U+001F) or a space. */
  predicate IsControlOrSpace(c: char) {
    c <= ' '
  }

  /** An ASCII tab or newline: U+0009, U+000A or U+000D. */
  predicate IsTabOrNewline(c: char) {
    c == '\t' || c == '\n' || c == '\r'
  }

  /** `s` without its leading C0 controls and spaces. */
  function TrimLeading(s: string): (r: string)
    ensures |r| <= |s|
    decreases |s|
  {
    if s != [] && IsControlOrSpace(s[0]) then TrimLeading(s[1..]) else s
  }

  /** `s` without its trailing C0 controls and spaces. */
  function TrimTrailing(s: string): (r: string)
    ensures |r| <= |s|
    decreases |s|
  {
    if s != [] && IsControlOrSpace(s[|s| - 1]) then TrimTrailing(s[..|s| - 1]) else s
  }

  /** `s` with every tab and newline removed and the other characters kept in order. */
  function RemoveTabNewline(s: string): (r: string)
    ensures |r| <= |s|
    decreases |s|
  {
    if s == [] then []
    else if IsTabOrNewline(s[0]) then RemoveTabNewline(s[1..])
    else [s[0]] + RemoveTabNewline(s[1..])
  }

  /** The reference as the URL parser reads it. */
  function Clean(reference: string): string {
    RemoveTabNewline(TrimTrailing(TrimLeading(reference)))
  }

  /** Leading controls and spaces are dropped up to the first other character. */
  lemma {:induction false} TrimLeadingDropsLead(lead: string, rest: string)
    requires forall i :: 0 <= i < |lead| ==> IsControlOrSpace(lead[i])
    requires rest != [] && !IsControlOrSpace(rest[0])
    ensures TrimLeading(lead + rest) == rest
    decreases |lead|
  {
    if lead == [] {
      assert lead + rest == rest;
    } else {
      assert (lead + rest)[0] == lead[0];
      assert (lead + rest)[1..] == lead[1..] + rest;
      TrimLeadingDropsLead(lead[1..], rest);
    }
  }

  /** Trailing trimming keeps a prefix that ends in a character other than a control or space. */
  lemma {:induction false} TrimTrailingKeepsPrefix(p: string, s: string)
    requires p != [] && !IsControlOrSpace(p[|p| - 1])
    ensures |TrimTrailing(p + s)| >= |p| && TrimTrailing(p + s)[..|p|] == p
    decreases |s|
  {
    var t := p + s;
    if s == [] {
      assert t == p;
    } else if IsControlOrSpace(s[|s| - 1]) {
      assert t[|t| - 1] == s[|s| - 1];
      assert t[..|t| - 1] == p + s[..|s| - 1];
      TrimTrailingKeepsPrefix(p, s[..|s| - 1]);
    } else {
      assert t[|t| - 1] == s[|s| - 1];
      assert TrimTrailing(t) == t;
      assert t[..|p|] == p;
    }
  }

  /** Removing tabs and newlines keeps a prefix that has none. */
  lemma {:induction false} RemoveTabNewlineKeepsPrefix(p: string, s: string)
    requires forall i :: 0 <= i < |p| ==> !IsTabOrNewline(p[i])
    ensures RemoveTabNewline(p + s) == p + RemoveTabNewline(s)
    decreases |p|
  {
    if p == [] {
      assert p + s == s;
    } else {
      assert (p + s)[0] == p[0];
      assert (p + s)[1..] == p[1..] + s;
      assert RemoveTabNewline(p + s) == [p[0]] + RemoveTabNewline(p[1..] + s);
      RemoveTabNewlineKeepsPrefix(p[1..], s);
      assert [p[0]] + (p[1..] + RemoveTabNewline(s)) == p + RemoveTabNewline(s);
    }
  }

  /** A reference without controls or spaces is read as written. */
  lemma CleanUnchanged(reference: string)
    requires forall i :: 0 <= i < |reference| ==> !IsControlOrSpace(reference[i])
    ensures Clean(reference) == reference
  {
    assert TrimLeading(reference) == reference;
    assert TrimTrailing(reference) == reference;
    RemoveTabNewlineKeepsPrefix(reference, []);
    assert reference + [] == reference;
  }

  /**
   * Leading controls and spaces do not hide what follows: a reference made
   * of such a lead, then a prefix without controls or spaces, is read as
   * starting with that prefix.
   */
  lemma CleanKeepsPrefix(lead: string, p: string, s: string)
    requires forall i :: 0 <= i < |lead| ==> IsControlOrSpace(lead[i])
    requires p != [] && forall i :: 0 <= i < |p| ==> !IsControlOrSpace(p[i])
    ensures |Clean(lead + p + s)| >= |p| && Clean(lead + p + s)[..|p|] == p
  {
    assert lead + p + s == lead + (p + s);
    assert (p + s)[0] == p[0];
    TrimLeadingDropsLead(lead, p + s);
    TrimTrailingKeepsPrefix(p, s);
    var t := TrimTrailing(p + s);
    assert t == p + t[|p|..];
    RemoveTabNewlineKeepsPrefix(p, t[|p|..]);
  }

  predicate IsAsciiAlpha(c: char) {
    'a' <= c <= 'z' || 'A' <= c <= 'Z'
  }

  predicate IsSchemeChar(c: char) {
    IsAsciiAlpha(c) || '0' <= c <= '9' || c == '+' || c == '-' || c == '.'
  }

  /** Scheme characters up to a `:`. */
  predicate SchemeTail(s: string)
    decreases |s|
  {
    |s| > 0 && (s[0] == ':' || (IsSchemeChar(s[0]) && SchemeTail(s[1..])))
  }

  /** The reference opens with a scheme (`https:`, `javascript:`, ...), as the URL parser's scheme state reads it. */
  predicate HasScheme(s: string) {
    |s| > 0 && IsAsciiAlpha(s[0]) && SchemeTail(s[1..])
  }

  /** For the special schemes `http` and `https` a backslash is read as a slash. */
  predicate IsSlash(c: char) {
    c == '/' || c == '\\'
  }

  predicate IsNetworkPathReference(s: string) {
    |s| >= 2 && IsSlash(s[0]) && IsSlash(s[1])
  }

  /** `new URL(reference, request.url)`, classified by where it leaves the browser. */
  function Resolve(reference: string): (t: Target)
    ensures t.Local? <==> !HasScheme(Clean(reference)) && !IsNetworkPathReference(Clean(reference))
    ensures t.NetworkPath? <==> !HasScheme(Clean(reference)) && IsNetworkPathReference(Clean(reference))
    ensures t.Absolute? <==> HasScheme(Clean(reference))
    ensures t == Local(Clean(reference)) || t == NetworkPath(Clean(reference)) || t == Absolute(Clean(reference))
  {
    var c := Clean(reference);
    if HasScheme(c) then Absolute(c)
    else if IsNetworkPathReference(c) then NetworkPath(c)
    else Local(c)
  }

  /** The query of a reference: what follows its first `?`, up to a `#`. */
  function QueryOf(reference: string): (q: string)
    ensures '?' !in reference ==> q == ""
    ensures |q| <= |reference| && '#' !in q
    decreases |reference|
  {
    if reference == [] || reference[0] == '#' then []
    else if reference[0] == '?' then UpTo(reference[1..], '#')
    else QueryOf(reference[1..])
  }

  /**
   * The query is decided by whichever of `?` and `#` comes first: after a
   * first `?`, it is the text up to the next `#`; after a first `#`, there
   * is none.
   */
  lemma {:induction false} QueryOfFirstMark(reference: string, i: nat)
    requires i < |reference|
    requires '?' !in reference[..i] && '#' !in reference[..i]
    ensures reference[i] == '?' ==> QueryOf(reference) == UpTo(reference[i + 1..], '#')
    ensures reference[i] == '#' ==> QueryOf(reference) == ""
    decreases i
  {
    if i > 0 {
      assert reference[0] == reference[..i][0];
      assert reference[1..][..i - 1] == reference[..i][1..];
      QueryOfFirstMark(reference[1..], i - 1);
      assert reference[1..][i - 1] == reference[i];
      assert reference[1..][i..] == reference[i + 1..];
    }
  }

  /** The characters of `s` before the first `stop`. */
  function UpTo(s: string, stop: char): (r: string)
    ensures |r| <= |s| && r == s[..|r|] && stop !in r
    ensures |r| < |s| ==> s[|r|] == stop
    decreases |s|
  {
    if s == [] || s[0] == stop then [] else [s[0]] + UpTo(s[1..], stop)
  }

  /** A path that starts with a single `/` followed by a visible character stays on the request's origin. */
  lemma PathStaysLocal(path: string)
    requires |path| >= 1 && path[0] == '/'
    requires |path| >= 2 ==> !IsSlash(path[1]) && !IsControlOrSpace(path[1])
    ensures Resolve(path) == Local(Clean(path))
  {
    if |path| >= 2 {
      CleanKeepsPrefix([], path[..2], path[2..]);
      assert [] + path[..2] + path[2..] == path;
    } else {
      CleanKeepsPrefix([], path, []);
      assert [] + path + [] == path;
    }
  }

  /** Leading controls and spaces before `//` do not keep the reference on the request's origin. */
  lemma NetworkPathAfterLead(lead: string, rest: string)
    requires forall i :: 0 <= i < |lead| ==> IsControlOrSpace(lead[i])
    ensures Resolve(lead + "//" + rest).NetworkPath?
  {
    CleanKeepsPrefix(lead, "//", rest);
    var c := Clean(lead + "//" + rest);
    var p := c[..2];
    assert p == "//";
    assert c[0] == p[0] == '/' && c[1] == p[1] == '/';
    assert IsNetworkPathReference(c);
    assert !HasScheme(c);
  }

  /** Leading spaces do not keep a `//host` reference on the request's origin. */
  lemma LeadingSpaceNetworkPath(host: string)
    ensures Resolve(" //" + host).NetworkPath?
  {
    var s := " //" + host;
    assert s == " " + "//" + host;
    NetworkPathAfterLead(" ", host);
  }

  /** A tab between the two slashes is removed, so `/<tab>/host` names another host too. */
  lemma TabHidesNetworkPath(host: string)
    ensures Resolve("/\t/" + host).NetworkPath?
  {
    var s := "/\t/" + host;
    assert s[0] == '/' && s[1] == '\t' && s[2] == '/';
    assert TrimLeading(s) == s;
    TrimTrailingKeepsPrefix("/\t/", host);
    var t := TrimTrailing(s);
    var p := t[..3];
    assert p == "/\t/";
    assert |t| >= 3 && t[0] == p[0] == '/' && t[1] == p[1] == '\t' && t[2] == p[2] == '/';
    var tail := t[3..];
    assert t == ['/'] + (['\t'] + (['/'] + tail));
    RemoveTabNewlineKeepsPrefix(['/'], ['\t'] + (['/'] + tail));
    assert RemoveTabNewline(['\t'] + (['/'] + tail)) == RemoveTabNewline(['/'] + tail);
    RemoveTabNewlineKeepsPrefix(['/'], tail);
    var c := Clean(s);
    assert c == ['/'] + (['/'] + RemoveTabNewline(tail));
    assert c[0] == '/' && c[1] == '/';
    assert IsNetworkPathReference(c) && !HasScheme(c);
  }

  /** Every reference that opens with `https:` has a scheme. */
  lemma HttpsScheme(s: string)
    requires |s| >= 6 && s[..6] == "https:"
    ensures HasScheme(s)
  {
    var p := s[..6];
    assert s[0] == p[0] == 'h' && s[1] == p[1] == 't' && s[2] == p[2] == 't';
    assert s[3] == p[3] == 'p' && s[4] == p[4] == 's' && s[5] == p[5] == ':';
    assert SchemeTail(s[5..]);
    assert s[4..][1..] == s[5..];
    assert SchemeTail(s[4..]);
    assert s[3..][1..] == s[4..];
    assert SchemeTail(s[3..]);
    assert s[2..][1..] == s[3..];
    assert SchemeTail(s[2..]);
    assert s[1..][1..] == s[2..];
    assert SchemeTail(s[1..]);
  }

  /** A reference that opens with `https:` after cleaning is absolute. */
  lemma HttpsCleanIsAbsolute(reference: string)
    requires |Clean(reference)| >= 8 && Clean(reference)[..8] == "https://"
    ensures Resolve(reference) == Absolute(Clean(reference))
  {
    var c := Clean(reference);
    assert c[..6] == c[..8][..6] == "https:";
    HttpsScheme(c);
  }

  /** A full `https://` URL is taken as the redirect target: its scheme and host, not the request's, decide where the browser goes. */
  lemma {:induction false} HttpsUrlIsAbsolute(rest: string)
    ensures Resolve("https://" + rest).Absolute?
    ensures |Resolve("https://" + rest).url| >= 8 && Resolve("https://" + rest).url[..8] == "https://"
    ensures (forall i :: 0 <= i < |rest| ==> !IsControlOrSpace(rest[i])) ==>
      Resolve("https://" + rest) == Absolute("https://" + rest)
  {
    var s := "https://" + rest;
    CleanKeepsPrefix([], "https://", rest);
    assert [] + "https://" + rest == s;
    HttpsCleanIsAbsolute(s);
    if forall i :: 0 <= i < |rest| ==> !IsControlOrSpace(rest[i]) {
      assert forall i :: 0 <= i < |s| ==> !IsControlOrSpace(s[i]) by {
        forall i | 0 <= i < |s| ensures !IsControlOrSpace(s[i]) {
          if i >= 8 { assert s[i] == rest[i - 8]; }
        }
      }
      CleanUnchanged(s);
    }
  }
}
