/** The AniList list URL matcher (`match_list_url` of `backend-rs/src/anilist.rs`) and the regex it stands for. */
module ListUrl {
  import opened Text

  function Lower(c: char): char { if 'A' <= c <= 'Z' then c - 'A' + 'a' else c }

  /** `eq_ignore_ascii_case`. */
  predicate SameIgnoringCase(s: string, t: string)
  {
    |s| == |t| && forall i :: 0 <= i < |s| ==> Lower(s[i]) == Lower(t[i])
  }

  predicate HasPrefix(s: string, prefix: string): (b: bool)
    ensures b ==> |s| >= |prefix|
  {
    |s| >= |prefix| && SameIgnoringCase(s[..|prefix|], prefix)
  }

  const HTTPS := "https://"
  const HTTP := "http://"
  const WWW := "www."
  const SITE := "anilist.co/user/"

  predicate IsStop(c: char) { c == '/' || c == '?' || c == '#' }

  predicate IsLineEnd(c: char) { c == '\n' || c == '\r' || c == '\U{2028}' || c == '\U{2029}' }

  /** What the classes of characters are: ASCII letters by case, `[/?#]`, and the line ends `.` doesn't match. */
  lemma Characters(c: char)
    ensures if 'A' <= c <= 'Z' then Lower(c) as int == c as int + 32 else Lower(c) == c
    ensures (IsStop(c) <==> c in "/?#") && (IsLineEnd(c) <==> c in "\n\r\U{2028}\U{2029}")
  {
  }

  // --------------------------------------------------------------- the regex

  /** A way to read a text by the regex, group by group. */
  datatype Url = Url(scheme: string, www: string, site: string, user: string, section: Option<string>,
                     list: Option<string>, slash: bool, tail: string)

  /** `[^/?#]+`. */
  predicate IsRun(s: string) { s != [] && forall c :: c in s ==> !IsStop(c) }

  /** `(?:[?#].*)?` up to the end. */
  predicate IsTail(s: string) { s == [] || ((s[0] == '?' || s[0] == '#') && forall c :: c in s ==> !IsLineEnd(c)) }

  predicate Matches(u: Url)
  {
    (u.scheme == "" || SameIgnoringCase(u.scheme, HTTPS) || SameIgnoringCase(u.scheme, HTTP))
    && (u.www == "" || SameIgnoringCase(u.www, WWW)) && SameIgnoringCase(u.site, SITE)
    && IsRun(u.user) && (u.section.Some? ==> IsRun(u.section.value))
    && (u.list.Some? ==> u.section.Some? && IsRun(u.list.value)) && IsTail(u.tail)
  }

  function Group(g: Option<string>): string { if g.Some? then ['/'] + g.value else "" }

  /** What follows the user. */
  function After(u: Url): string { Group(u.section) + (Group(u.list) + ((if u.slash then ['/'] else "") + u.tail)) }

  function TextOf(u: Url): string { u.scheme + (u.www + (u.site + (u.user + After(u)))) }

  // -------------------------------------------------------------- the matcher

  /** `find(['/', '?', '#'])`, the length when there is none. */
  function RunLength(s: string): (n: nat)
    ensures n <= |s| && (forall i :: 0 <= i < n ==> !IsStop(s[i])) && (n < |s| ==> IsStop(s[n]))
  {
    if s == [] || IsStop(s[0]) then 0 else RunLength(s[1..]) + 1
  }

  /** The scheme a text starts with. */
  function SchemeOf(s: string): (p: string)
    ensures |p| <= |s| && p == s[..|p|]
  {
    if HasPrefix(s, HTTPS) then s[..|HTTPS|] else if HasPrefix(s, HTTP) then s[..|HTTP|] else ""
  }

  function WwwOf(s: string): (p: string)
    ensures |p| <= |s| && p == s[..|p|]
  {
    if HasPrefix(s, WWW) then s[..|WWW|] else ""
  }

  /** A slash and the run after it; none when the run is empty. */
  function Segment(s: string): (g: Option<string>)
    ensures g.Some? ==> |g.value| < |s| && s == ['/'] + g.value + s[1 + |g.value|..]
  {
    if s == [] || s[0] != '/' || RunLength(s[1..]) == 0 then None
    else
      assert s == ['/'] + s[1..];
      Some(s[1..][..RunLength(s[1..])])
  }

  function Drop(s: string, g: Option<string>): string
    requires g.Some? ==> |g.value| < |s|
  {
    if g.Some? then s[1 + |g.value|..] else s
  }

  /** The groups of what follows the user. */
  datatype Path = Path(section: Option<string>, list: Option<string>, slash: bool, tail: string)

  function ReadPath(s: string): Path
  {
    var section := Segment(s);
    var s1 := Drop(s, section);
    var list := if section.Some? then Segment(s1) else None;
    var s2 := Drop(s1, list);
    var slash := s2 != [] && s2[0] == '/';
    Path(section, list, slash, if slash then s2[1..] else s2)
  }

  /** The text read group by group, each group as long as it gets. */
  function Read(value: string): Option<Url>
  {
    var scheme := SchemeOf(value);
    var a := value[|scheme|..];
    var www := WwwOf(a);
    var b := a[|www|..];
    if !HasPrefix(b, SITE) then None
    else
      var c := b[|SITE|..];
      var n := RunLength(c);
      var p := ReadPath(c[n..]);
      if n == 0 || !IsTail(p.tail) then None
      else Some(Url(scheme, www, b[..|SITE|], c[..n], p.section, p.list, p.slash, p.tail))
  }

  /** `match_list_url`: the user, section and list of a text the regex matches. */
  method MatchListUrl(value: string) returns (r: Option<(string, Option<string>, Option<string>)>)
    ensures forall u :: Matches(u) && TextOf(u) == value ==> r == Some((u.user, u.section, u.list))
    ensures r.Some? ==> exists u :: Matches(u) && TextOf(u) == value
  {
    hide Matches, TextOf, HasPrefix, RunLength, IsTail, Segment, Drop, SchemeOf, WwwOf;
    ReadIsTheRegex(value);
    var rest := StripStart(value);
    if !HasPrefix(rest, SITE) { return None; }
    rest := rest[|SITE|..];
    var userLength := RunLength(rest);
    if userLength == 0 { return None; }
    var user := rest[..userLength];
    rest := rest[userLength..];
    ghost var path := rest;
    var segments;
    segments, rest := TakeSegments(rest);
    if rest != [] && rest[0] == '/' { rest := rest[1..]; }
    if !IsTail(rest) { return None; }
    ghost var u := Read(value).value;
    assert Matches(u) && TextOf(u) == value;
    return Some((user, if |segments| > 0 then Some(segments[0]) else None,
                 if |segments| > 1 then Some(segments[1]) else None));
  }

  /** The optional scheme and `www.`. */
  method StripStart(value: string) returns (rest: string)
    ensures var a := value[|SchemeOf(value)|..]; rest == a[|WwwOf(a)|..]
  {
    hide HasPrefix;
    rest := value;
    if HasPrefix(rest, HTTPS) {
      rest := rest[|HTTPS|..];
    } else if HasPrefix(rest, HTTP) {
      rest := rest[|HTTP|..];
    }
    if HasPrefix(rest, WWW) {
      rest := rest[|WWW|..];
    }
  }

  /** The loop of `match_list_url`: at most two segments. */
  method TakeSegments(path: string) returns (segments: seq<string>, rest: string)
    ensures var first := Segment(path);
            var second := if first.Some? then Segment(Drop(path, first)) else None;
            segments == (if first.None? then [] else if second.None? then [first.value]
              else [first.value, second.value])
            && rest == Drop(Drop(path, first), second)
  {
    hide RunLength, Segment, IsStop;
    NoSegment(path);
    rest := path;
    segments := [];
    ghost var second := Segment(Drop(path, Segment(path)));
    while |segments| < 2
      invariant |segments| == 0 ==> rest == path
      invariant |segments| == 1 ==> Segment(path) == Some(segments[0]) && rest == Drop(path, Segment(path))
      invariant |segments| == 2 ==> Segment(path) == Some(segments[0]) && second == Some(segments[1])
                                    && rest == Drop(Drop(path, Segment(path)), second)
      invariant |segments| <= 2
      decreases 2 - |segments|
    {
      NextSegment(rest);
      if rest == [] || rest[0] != '/' { break; }
      var after := rest[1..];
      var len := RunLength(after);
      if len == 0 { break; }
      segments := segments + [after[..len]];
      rest := after[len..];
    }
  }

  lemma NoSegment(s: string)
    ensures Drop(s, None) == s
  {
  }

  lemma NextSegment(s: string)
    ensures Segment(s).None? <==> s == [] || s[0] != '/' || RunLength(s[1..]) == 0
    ensures Segment(s).Some? ==>
      Segment(s).value == s[1..][..RunLength(s[1..])] && Drop(s, Segment(s)) == s[1..][RunLength(s[1..])..]
  {
  }

  // --------------------------------------------------------------- the theorem

  lemma RunOf(run: string, rest: string)
    requires forall c :: c in run ==> !IsStop(c)
    requires rest == [] || IsStop(rest[0])
    ensures RunLength(run + rest) == |run|
  {
    var s := run + rest;
    var n := RunLength(s);
    assert forall i :: 0 <= i < |run| ==> s[i] == run[i];
    if rest != [] { assert s[|run|] == rest[0]; }
  }

  lemma SegmentOf(g: Option<string>, rest: string)
    requires g.Some? ==> IsRun(g.value) && (rest == [] || IsStop(rest[0]))
    requires g.None? ==> Segment(rest).None?
    ensures Segment(Group(g) + rest) == g && Drop(Group(g) + rest, g) == rest
  {
    hide RunLength, IsStop;
    var s := Group(g) + rest;
    if g.Some? {
      assert s[1..] == g.value + rest;
      RunOf(g.value, rest);
    } else {
      assert s == rest;
    }
  }

  /** A closing slash and a tail aren't a segment. */
  lemma EndIsNoSegment(slash: bool, tail: string)
    requires IsTail(tail)
    ensures var s := (if slash then ['/'] else "") + tail;
            Segment(s).None? && (s == [] || IsStop(s[0])) && (s != [] && s[0] == '/' <==> slash)
            && (if slash then s[1..] == tail else s == tail)
  {
    var s := (if slash then ['/'] else "") + tail;
    if slash { assert s[1..] == tail; } else { assert s == tail; }
  }

  lemma PathOf(u: Url)
    requires Matches(u)
    ensures ReadPath(After(u)) == Path(u.section, u.list, u.slash, u.tail)
    ensures After(u) == [] || IsStop(After(u)[0])
  {
    hide Segment, IsRun, IsTail, SameIgnoringCase;
    var end := (if u.slash then ['/'] else "") + u.tail;
    EndIsNoSegment(u.slash, u.tail);
    SegmentOf(u.list, end);
    if u.section.None? { assert "" + end == end && "" + ("" + end) == end; }
    SegmentOf(u.section, Group(u.list) + end);
  }

  lemma PrefixOf(p: string, prefix: string, rest: string)
    requires SameIgnoringCase(p, prefix)
    ensures HasPrefix(p + rest, prefix) && (p + rest)[..|prefix|] == p && (p + rest)[|prefix|..] == rest
  {
    assert (p + rest)[..|prefix|] == p;
  }

  lemma OtherFirst(s: string, prefix: string)
    requires |prefix| > 0 && s != [] && Lower(s[0]) != Lower(prefix[0])
    ensures !HasPrefix(s, prefix)
  {
    if |s| >= |prefix| { assert s[..|prefix|][0] == s[0]; }
  }

  lemma HttpIsNotHttps(p: string, rest: string)
    requires SameIgnoringCase(p, HTTP)
    ensures !HasPrefix(p + rest, HTTPS)
  {
    var s := p + rest;
    assert Lower(p[4]) == Lower(HTTP[4]) && s[4] == p[4];
    if |s| >= 8 { assert s[..8][4] == s[4] && HTTPS[4] == 's' && HTTP[4] == ':'; }
  }

  lemma StartOf(u: Url, rest: string)
    requires Matches(u)
    ensures SchemeOf(u.scheme + (u.www + (u.site + rest))) == u.scheme
    ensures (u.scheme + (u.www + (u.site + rest)))[|u.scheme|..] == u.www + (u.site + rest)
    ensures WwwOf(u.www + (u.site + rest)) == u.www && (u.www + (u.site + rest))[|u.www|..] == u.site + rest
  {
    var b := u.site + rest;
    assert Lower(b[0]) == Lower(SITE[0]) == 'a';
    var a := u.www + b;
    if u.www == "" {
      assert a == b;
      OtherFirst(a, WWW);
    } else {
      PrefixOf(u.www, WWW, b);
      assert Lower(a[0]) == Lower(WWW[0]) == 'w';
    }
    var value := u.scheme + a;
    if u.scheme == "" {
      assert value == a;
      OtherFirst(value, HTTPS);
      OtherFirst(value, HTTP);
    } else if SameIgnoringCase(u.scheme, HTTPS) {
      PrefixOf(u.scheme, HTTPS, a);
    } else {
      HttpIsNotHttps(u.scheme, a);
      PrefixOf(u.scheme, HTTP, a);
    }
  }

  /** A text that decomposes by the regex is read as that decomposition, so there is only one. */
  lemma ReadOfText(u: Url)
    requires Matches(u)
    ensures Read(TextOf(u)) == Some(u)
  {
    hide SchemeOf, WwwOf, RunLength, ReadPath, SameIgnoringCase, IsTail, IsStop, HasPrefix, After;
    var c := u.user + After(u);
    StartOf(u, c);
    PrefixOf(u.site, SITE, c);
    PathOf(u);
    RunOf(u.user, After(u));
    assert c[..|u.user|] == u.user && c[|u.user|..] == After(u);
  }

  lemma PathText(s: string)
    ensures var p := ReadPath(s);
            s == Group(p.section) + (Group(p.list) + ((if p.slash then ['/'] else "") + p.tail))
            && (p.section.Some? ==> IsRun(p.section.value)) && (p.list.Some? ==> p.section.Some? && IsRun(p.list.value))
  {
    hide Segment, Drop, IsRun, Group;
    var p := ReadPath(s);
    SegmentText(s);
    var s1 := Drop(s, p.section);
    SegmentText(s1);
    SlashText(Drop(s1, p.list));
  }

  lemma SlashText(s: string)
    ensures s == if s != [] && s[0] == '/' then ['/'] + s[1..] else "" + s
  {
  }

  lemma SegmentText(s: string)
    ensures var g := Segment(s); (g.Some? ==> IsRun(g.value)) && s == Group(g) + Drop(s, g)
    ensures s == Group(None) + Drop(s, None)
  {
  }

  lemma TextOfRead(value: string)
    requires Read(value).Some?
    ensures Matches(Read(value).value) && TextOf(Read(value).value) == value
  {
    hide ReadPath, RunLength, IsTail, IsRun, Group, SameIgnoringCase, SchemeOf, WwwOf;
    var u := Read(value).value;
    var a := value[|u.scheme|..];
    var b := a[|u.www|..];
    var c := b[|SITE|..];
    PathText(c[|u.user|..]);
    SchemeForm(value);
    SchemeForm(a);
    RunIsRun(c);
    HeadAndRest(c, |u.user|);
    HeadAndRest(b, |SITE|);
    HeadAndRest(a, |u.www|);
    HeadAndRest(value, |u.scheme|);
  }

  lemma HeadAndRest(s: string, n: nat)
    requires n <= |s|
    ensures s[..n] + s[n..] == s
  {
  }

  lemma SchemeForm(s: string)
    ensures var p := SchemeOf(s); p == "" || SameIgnoringCase(p, HTTPS) || SameIgnoringCase(p, HTTP)
    ensures var p := WwwOf(s); p == "" || SameIgnoringCase(p, WWW)
  {
  }

  lemma RunIsRun(s: string)
    requires RunLength(s) > 0
    ensures IsRun(s[..RunLength(s)])
  {
  }

  /** The matcher's reading and the regex agree on every text, and a text decomposes in one way at most. */
  lemma ReadIsTheRegex(value: string)
    ensures forall u :: Matches(u) && TextOf(u) == value <==> Read(value) == Some(u)
  {
    hide Read, Matches, TextOf;
    forall u ensures Matches(u) && TextOf(u) == value <==> Read(value) == Some(u) {
      if Matches(u) && TextOf(u) == value { ReadOfText(u); }
      if Read(value) == Some(u) { TextOfRead(value); }
    }
  }

  /** The regex decomposes no text in two ways. */
  lemma OneDecomposition(u: Url, v: Url)
    requires Matches(u) && Matches(v) && TextOf(u) == TextOf(v)
    ensures u == v
  {
    hide Matches, TextOf, Read;
    ReadOfText(u);
    ReadOfText(v);
  }
}
