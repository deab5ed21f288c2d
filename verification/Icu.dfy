/** ICU message rendering with plain arguments (`render` of `backend-rs/src/i18n.rs`). */
module Icu {
  const QUOTE := '\''

  predicate IsBrace(c: char) { c == '{' || c == '}' }

  /** `char::is_whitespace`: the Unicode White_Space characters. */
  predicate IsWhitespace(c: char)
  {
    '\U{9}' <= c <= '\U{D}' || c == ' ' || c == '\U{85}' || c == '\U{A0}' || c == '\U{1680}'
    || '\U{2000}' <= c <= '\U{200A}' || c == '\U{2028}' || c == '\U{2029}' || c == '\U{202F}' || c == '\U{205F}'
    || c == '\U{3000}'
  }

  function Trim(s: string): string
  {
    if s == [] then s
    else if IsWhitespace(s[0]) then Trim(s[1..])
    else if IsWhitespace(s[|s| - 1]) then Trim(s[..|s| - 1])
    else s
  }

  datatype Value = Value(name: string, text: string)

  /** The text of the first argument called `name`; nothing when there is none. */
  function Lookup(args: seq<Value>, name: string): string
  {
    if args == [] then "" else if args[0].name == name then args[0].text else Lookup(args[1..], name)
  }

  function IndexOf(s: string, c: char): (k: nat)
    ensures k <= |s| && (forall i :: 0 <= i < k ==> s[i] != c) && (k < |s| ==> s[k] == c)
  {
    if s == [] || s[0] == c then 0 else IndexOf(s[1..], c) + 1
  }

  // --------------------------------------------------------------- rendering

  /** A quoted run: its literal text, and what follows the quote that ends it. */
  function QuotedRun(t: string): (r: (string, string))
    ensures |r.1| <= |t|
  {
    if t == [] then ("", [])
    else if t[0] != QUOTE then
      var r := QuotedRun(t[1..]);
      ([t[0]] + r.0, r.1)
    else if |t| > 1 && t[1] == QUOTE then
      var r := QuotedRun(t[2..]);
      ([QUOTE] + r.0, r.1)
    else ("", t[1..])
  }

  /** What the rest `t` of a message renders to. */
  function Rendered(t: string, args: seq<Value>): string
    decreases |t|
  {
    if t == [] then ""
    else if t[0] == QUOTE then
      if |t| > 1 && t[1] == QUOTE then [QUOTE] + Rendered(t[2..], args)
      else if |t| > 1 && IsBrace(t[1]) then
        var run := QuotedRun(t[1..]);
        run.0 + Rendered(run.1, args)
      else [QUOTE] + Rendered(t[1..], args)
    else if t[0] == '{' then
      var end := IndexOf(t, '}');
      if end < |t| then Lookup(args, Trim(t[1..end])) + Rendered(t[end + 1..], args)
      else ['{'] + Rendered(t[1..], args)
    else [t[0]] + Rendered(t[1..], args)
  }

  /** `render`: an index walks the characters. */
  method Render(chars: string, args: seq<Value>) returns (out: string)
    ensures out == Rendered(chars, args)
  {
    hide Trim, Lookup, QuotedRun, IndexOf, Rendered, IsBrace;
    NothingRendered(args);
    out := "";
    var i := 0;
    assert chars[0..] == chars && "" + Rendered(chars, args) == Rendered(chars, args);
    while i < |chars|
      invariant i <= |chars|
      invariant out + Rendered(chars[i..], args) == Rendered(chars, args)
      decreases |chars| - i
    {
      var c := chars[i];
      ghost var before := out;
      RenderedStep(chars, i, args);
      if c == QUOTE {
        if i + 1 < |chars| && chars[i + 1] == QUOTE {
          out := out + [QUOTE];
          i := i + 2;
        } else if i + 1 < |chars| && IsBrace(chars[i + 1]) {
          var literal, next := ReadRun(chars, i + 1);
          out := out + literal;
          i := next;
        } else {
          out := out + [QUOTE];
          i := i + 1;
        }
      } else if c == '{' {
        var end := IndexOf(chars[i..], '}');
        if end < |chars| - i {
          out := out + Lookup(args, Trim(chars[i + 1..i + end]));
          i := i + end + 1;
        } else {
          out := out + ['{'];
          i := i + 1;
        }
      } else {
        out := out + [c];
        i := i + 1;
      }
      Appended(before, out[|before|..], Rendered(chars[i..], args));
      assert out == before + out[|before|..];
    }
    assert chars[i..] == [] && out + "" == out;
  }

  lemma Appended(a: string, b: string, c: string)
    ensures a + (b + c) == (a + b) + c
  {
  }

  /** One step of the rendering from an index. */
  lemma RenderedStep(chars: string, i: nat, args: seq<Value>)
    requires i < |chars|
    ensures var c, rest, n := chars[i], chars[i..], |chars|;
      Rendered(rest, args) ==
        if c == QUOTE && i + 1 < n && chars[i + 1] == QUOTE then [QUOTE] + Rendered(chars[i + 2..], args)
        else if c == QUOTE && i + 1 < n && IsBrace(chars[i + 1]) then
          QuotedRun(chars[i + 1..]).0 + Rendered(QuotedRun(chars[i + 1..]).1, args)
        else if c == '{' && IndexOf(rest, '}') < n - i then
          Lookup(args, Trim(chars[i + 1..i + IndexOf(rest, '}')])) + Rendered(chars[i + IndexOf(rest, '}') + 1..], args)
        else [c] + Rendered(chars[i + 1..], args)
  {
    hide Trim, Lookup, QuotedRun, IsBrace, IndexOf;
    Tails(chars, i);
    var rest, end := chars[i..], IndexOf(chars[i..], '}');
    if chars[i] == '{' && end < |chars| - i {
      assert rest[1..end] == chars[i + 1..i + end] && rest[end + 1..] == chars[i + end + 1..];
    }
  }

  /** The inner loop of `render`: the quoted run from `start`. */
  method ReadRun(chars: string, start: nat) returns (literal: string, i: nat)
    requires start <= |chars|
    ensures start <= i <= |chars| && (start < |chars| && chars[start] != QUOTE ==> start < i)
    ensures QuotedRun(chars[start..]) == (literal, chars[i..])
  {
    hide QuotedRun, IsBrace;
    literal, i := "", start;
    while i < |chars|
      invariant start <= i <= |chars| && (i > start || literal == "")
      invariant QuotedRun(chars[start..]).0 == literal + QuotedRun(chars[i..]).0
      invariant QuotedRun(chars[start..]).1 == QuotedRun(chars[i..]).1
      decreases |chars| - i
    {
      RunStep(chars, i);
      if chars[i] == QUOTE {
        if i + 1 < |chars| && chars[i + 1] == QUOTE {
          literal := literal + [QUOTE];
          i := i + 2;
          continue;
        }
        i := i + 1;
        assert literal + [] == literal;
        return;
      }
      literal := literal + [chars[i]];
      i := i + 1;
    }
    assert chars[i..] == [] && literal + [] == literal;
    EmptyRun();
  }

  lemma EmptyRun()
    ensures QuotedRun([]) == ([], [])
  {
  }

  lemma RunStep(chars: string, i: nat)
    requires i < |chars|
    ensures QuotedRun(chars[i..]) ==
      if chars[i] != QUOTE then ([chars[i]] + QuotedRun(chars[i + 1..]).0, QuotedRun(chars[i + 1..]).1)
      else if i + 1 < |chars| && chars[i + 1] == QUOTE then
        ([QUOTE] + QuotedRun(chars[i + 2..]).0, QuotedRun(chars[i + 2..]).1)
      else ([], chars[i + 1..])
  {
    Tails(chars, i);
  }

  lemma Tails(chars: string, i: nat)
    requires i < |chars|
    ensures chars[i..][0] == chars[i] && chars[i..][1..] == chars[i + 1..]
    ensures i + 1 < |chars| ==> chars[i..][1] == chars[i + 1] && chars[i..][2..] == chars[i + 2..]
  {
  }

  // ---------------------------------------------------------------- printing

  /** A message as its author means it. */
  datatype Part = Literal(text: string) | Argument(name: string)

  /** Quotes doubled. */
  function Doubled(s: string): string
  {
    if s == [] then [] else if s[0] == QUOTE then [QUOTE, QUOTE] + Doubled(s[1..]) else [s[0]] + Doubled(s[1..])
  }

  predicate Plain(s: string) { forall c :: c in s ==> !IsBrace(c) }

  function FirstBrace(s: string): (k: nat)
    ensures k <= |s| && Plain(s[..k]) && (k < |s| ==> IsBrace(s[k])) && (k == |s| <==> Plain(s))
  {
    if s == [] || IsBrace(s[0]) then 0
    else
      var k := FirstBrace(s[1..]);
      assert s[..k + 1] == [s[0]] + s[1..][..k];
      assert s == [s[0]] + s[1..];
      k + 1
  }

  /** A literal: quotes doubled, and one quoted run from its first brace on. */
  function PrintLiteral(s: string): string
  {
    var k := FirstBrace(s);
    if k == |s| then Doubled(s) else Doubled(s[..k]) + [QUOTE] + (Doubled(s[k..]) + [QUOTE])
  }

  function PrintPart(p: Part): string
  {
    if p.Literal? then PrintLiteral(p.text) else ['{'] + p.name + ['}']
  }

  function Print(parts: seq<Part>): string
  {
    if parts == [] then "" else PrintPart(parts[0]) + Print(parts[1..])
  }

  /** The literals verbatim with the arguments' values in place. */
  function Meaning(parts: seq<Part>, args: seq<Value>): string
  {
    if parts == [] then ""
    else (if parts[0].Literal? then parts[0].text else Lookup(args, Trim(parts[0].name))) + Meaning(parts[1..], args)
  }

  /** Argument names as the syntax allows them. */
  predicate ValidNames(parts: seq<Part>) { forall p :: p in parts && p.Argument? ==> '}' !in p.name }

  predicate Braced(p: Part) { p.Literal? && !Plain(p.text) }

  /** How many quotes a text begins with. */
  function LeadingQuotes(s: string): nat { if s == [] || s[0] != QUOTE then 0 else 1 + LeadingQuotes(s[1..]) }

  /** The print of what follows a quoted run would pair up with the run's closing quote. */
  predicate PairsUp(rest: seq<Part>) { LeadingQuotes(Print(rest)) % 2 == 1 }

  /** A literal with a brace stands before a rest whose print begins with an odd number of quotes. */
  predicate Clashes(parts: seq<Part>)
  {
    exists i :: 0 <= i < |parts| && Braced(parts[i]) && PairsUp(parts[i + 1..])
  }

  /** What a message really renders to: a quote more for each such literal. */
  function Actual(parts: seq<Part>, args: seq<Value>): string
  {
    if parts == [] then ""
    else if parts[0].Argument? then Lookup(args, Trim(parts[0].name)) + Actual(parts[1..], args)
    else if Braced(parts[0]) then parts[0].text + (Extra(parts[1..]) + Actual(parts[1..], args))
    else parts[0].text + Actual(parts[1..], args)
  }

  function Extra(rest: seq<Part>): string { if PairsUp(rest) then [QUOTE] else "" }

  lemma RenderedPair(tail: string, args: seq<Value>)
    ensures Rendered([QUOTE, QUOTE] + tail, args) == [QUOTE] + Rendered(tail, args)
  {
    hide QuotedRun, Trim, Lookup, IndexOf;
    var t := [QUOTE, QUOTE] + tail;
    assert t[2..] == tail;
  }

  lemma RenderedChar(c: char, tail: string, args: seq<Value>)
    requires c != QUOTE && !IsBrace(c)
    ensures Rendered([c] + tail, args) == [c] + Rendered(tail, args)
  {
    hide QuotedRun, Trim, Lookup, IndexOf;
    var t := [c] + tail;
    assert t[1..] == tail;
  }

  lemma {:induction false} RenderedDoubled(s: string, rest: string, args: seq<Value>)
    requires Plain(s)
    ensures Rendered(Doubled(s) + rest, args) == s + Rendered(rest, args)
    decreases |s|
  {
    hide Rendered, IsBrace;
    if s == [] {
      assert [] + rest == rest;
    } else {
      RenderedDoubled(s[1..], rest, args);
      var tail := Doubled(s[1..]) + rest;
      assert s[0] in s;
      if s[0] == QUOTE {
        Appended([QUOTE, QUOTE], Doubled(s[1..]), rest);
        RenderedPair(tail, args);
      } else {
        Appended([s[0]], Doubled(s[1..]), rest);
        RenderedChar(s[0], tail, args);
      }
      Appended([s[0]], s[1..], Rendered(rest, args));
      assert [s[0]] + s[1..] == s;
    }
  }

  /** A pair of quotes in a run. */
  lemma RunPair(t: string)
    ensures QuotedRun([QUOTE, QUOTE] + t) == ([QUOTE] + QuotedRun(t).0, QuotedRun(t).1)
  {
    assert ([QUOTE, QUOTE] + t)[2..] == t;
  }

  lemma RunChar(c: char, t: string)
    requires c != QUOTE
    ensures QuotedRun([c] + t) == ([c] + QuotedRun(t).0, QuotedRun(t).1)
  {
    assert ([c] + t)[1..] == t;
  }

  /** A run reads doubled quotes as the text they stand for, whatever follows. */
  lemma {:induction false} RunOfDoubled(s: string, rest: string)
    ensures QuotedRun(Doubled(s) + rest) == (s + QuotedRun(rest).0, QuotedRun(rest).1)
    decreases |s|
  {
    hide QuotedRun;
    if s == [] {
      assert Doubled(s) + rest == rest && s + QuotedRun(rest).0 == QuotedRun(rest).0;
    } else {
      RunOfDoubled(s[1..], rest);
      var tail := Doubled(s[1..]) + rest;
      Appended([s[0]], s[1..], QuotedRun(rest).0);
      assert s == [s[0]] + s[1..];
      if s[0] == QUOTE {
        Appended([QUOTE, QUOTE], Doubled(s[1..]), rest);
        RunPair(tail);
      } else {
        Appended([s[0]], Doubled(s[1..]), rest);
        RunChar(s[0], tail);
      }
    }
  }

  lemma DoubledHead(b: string, tail: string)
    requires b != [] && IsBrace(b[0])
    ensures Doubled(b) + tail != [] && (Doubled(b) + tail)[0] == b[0]
  {
  }

  lemma RenderedRun(run: string, args: seq<Value>)
    requires run != [] && IsBrace(run[0])
    ensures Rendered([QUOTE] + run, args) == QuotedRun(run).0 + Rendered(QuotedRun(run).1, args)
  {
    var t := [QUOTE] + run;
    assert t[1] == run[0] && t[1..] == run;
  }

  lemma RenderedArgument(name: string, rest: string, args: seq<Value>)
    requires '}' !in name
    ensures Rendered(['{'] + name + ['}'] + rest, args) == Lookup(args, Trim(name)) + Rendered(rest, args)
  {
    hide Trim, Lookup;
    var t := ['{'] + name + ['}'] + rest;
    var end := IndexOf(t, '}');
    assert t[|name| + 1] == '}' && forall i :: 0 <= i <= |name| ==> t[i] != '}';
    assert t[1..end] == name && t[end + 1..] == rest;
  }

  lemma NothingRendered(args: seq<Value>)
    ensures Rendered("", args) == ""
  {
  }

  /** A quote before either brace starts a literal run, which the next lone quote ends. */
  lemma QuotedBrace(brace: char, text: string, rest: string, args: seq<Value>)
    requires (brace == '{' || brace == '}') && QUOTE !in text && (rest == [] || rest[0] != QUOTE)
    ensures Rendered([QUOTE] + ([brace] + text + [QUOTE] + rest), args) == [brace] + text + Rendered(rest, args)
  {
    hide Rendered;
    PlainRun([brace] + text, rest);
    RenderedRun([brace] + text + [QUOTE] + rest, args);
  }

  lemma {:induction false} PlainRun(text: string, rest: string)
    requires QUOTE !in text && (rest == [] || rest[0] != QUOTE)
    ensures QuotedRun(text + [QUOTE] + rest) == (text, rest)
  {
    if text == [] {
      assert text + [QUOTE] + rest == [QUOTE] + rest && ([QUOTE] + rest)[1..] == rest;
    } else {
      PlainRun(text[1..], rest);
      assert text + [QUOTE] + rest == [text[0]] + (text[1..] + [QUOTE] + rest);
      RunChar(text[0], text[1..] + [QUOTE] + rest);
      assert [text[0]] + text[1..] == text;
    }
  }

  /** Before anything but a brace or a quote, a quote is itself; and so is a brace that closes nothing. */
  lemma LoneCharacters(c: char, rest: string, args: seq<Value>)
    requires c != '{' && c != '}' && c != QUOTE
    ensures Rendered([QUOTE] + ([c] + rest), args) == [QUOTE] + Rendered([c] + rest, args)
    ensures Rendered(['}'] + rest, args) == ['}'] + Rendered(rest, args)
    ensures '}' !in rest ==> Rendered(['{'] + rest, args) == ['{'] + Rendered(rest, args)
  {
    hide QuotedRun, Lookup, Trim;
    assert ([QUOTE] + ([c] + rest))[1..] == [c] + rest;
    assert (['}'] + rest)[1..] == rest && (['{'] + rest)[1..] == rest;
  }

  // ------------------------------------------------------------ the arguments

  predicate Blank(s: string) { forall c :: c in s ==> IsWhitespace(c) }

  /** No blank at either end. */
  predicate Bare(s: string) { s != [] ==> !IsWhitespace(s[0]) && !IsWhitespace(s[|s| - 1]) }

  /** The 25 characters of Unicode's White_Space. */
  lemma WhitespaceCharacters(c: char)
    ensures IsWhitespace(c) <==>
      c in "\U{9}\U{A}\U{B}\U{C}\U{D}\U{20}\U{85}\U{A0}\U{1680}\U{2000}\U{2001}\U{2002}\U{2003}\U{2004}"
           + "\U{2005}\U{2006}\U{2007}\U{2008}\U{2009}\U{200A}\U{2028}\U{2029}\U{202F}\U{205F}\U{3000}"
  {
  }

  lemma {:induction false} TrimIgnoresBlanks(left: string, core: string, right: string)
    requires Blank(left) && Blank(right) && Bare(core)
    ensures Trim(left + core + right) == core
    decreases |left| + |right|
  {
    var s := left + core + right;
    if left != [] {
      assert left[0] in left && s[1..] == left[1..] + core + right;
      TrimIgnoresBlanks(left[1..], core, right);
    } else if right != [] {
      var init, last := right[..|right| - 1], right[|right| - 1];
      assert last in right && right[0] in right;
      if core == [] {
        assert s[1..] == left + core + right[1..];
        TrimIgnoresBlanks(left, core, right[1..]);
      } else {
        assert s[..|s| - 1] == left + core + init;
        TrimIgnoresBlanks(left, core, init);
      }
    } else {
      assert s == core;
    }
  }

  lemma {:induction false} LookupFirst(args: seq<Value>, i: nat)
    requires i < |args| && forall j :: 0 <= j < i ==> args[j].name != args[i].name
    ensures Lookup(args, args[i].name) == args[i].text
    decreases i
  {
    if i > 0 { LookupFirst(args[1..], i - 1); }
  }

  lemma {:induction false} LookupNone(args: seq<Value>, name: string)
    requires forall j :: 0 <= j < |args| ==> args[j].name != name
    ensures Lookup(args, name) == ""
  {
    if args != [] { LookupNone(args[1..], name); }
  }

  /** An argument of the message, blanks around its name, becomes the text of the first value of that name. */
  lemma ArgumentBecomesItsValue(args: seq<Value>, i: nat, left: string, right: string, rest: string)
    requires i < |args| && forall j :: 0 <= j < i ==> args[j].name != args[i].name
    requires '}' !in args[i].name && Bare(args[i].name) && Blank(left) && Blank(right)
    ensures Rendered(['{'] + (left + args[i].name + right) + ['}'] + rest, args) == args[i].text + Rendered(rest, args)
  {
    hide Rendered, Lookup, Trim;
    TrimIgnoresBlanks(left, args[i].name, right);
    LookupFirst(args, i);
    RenderedArgument(left + args[i].name + right, rest, args);
  }

  /** A name that no value has becomes nothing. */
  lemma UnknownArgument(args: seq<Value>, name: string, left: string, right: string, rest: string)
    requires forall j :: 0 <= j < |args| ==> args[j].name != name
    requires '}' !in name && Bare(name) && Blank(left) && Blank(right)
    ensures Rendered(['{'] + (left + name + right) + ['}'] + rest, args) == Rendered(rest, args)
  {
    hide Rendered, Lookup, Trim;
    TrimIgnoresBlanks(left, name, right);
    LookupNone(args, name);
    RenderedArgument(left + name + right, rest, args);
    assert "" + Rendered(rest, args) == Rendered(rest, args);
  }

  /** What a message means, part by part: literals verbatim, and the first value of each argument's name. */
  lemma MeaningByParts(parts: seq<Part>, args: seq<Value>, i: nat, left: string, right: string, text: string)
    requires i < |args| && (forall j :: 0 <= j < i ==> args[j].name != args[i].name) && Bare(args[i].name)
    requires Blank(left) && Blank(right)
    ensures Meaning([], args) == "" && Meaning([Literal(text)] + parts, args) == text + Meaning(parts, args)
    ensures Meaning([Argument(left + args[i].name + right)] + parts, args) == args[i].text + Meaning(parts, args)
  {
    hide Lookup, Trim;
    TrimIgnoresBlanks(left, args[i].name, right);
    LookupFirst(args, i);
    assert ([Literal(text)] + parts)[1..] == parts;
    assert ([Argument(left + args[i].name + right)] + parts)[1..] == parts;
  }

  // ------------------------------------------------- what a message renders to

  /** The length that shrinks as a message is taken apart. */
  function Weight(parts: seq<Part>): nat
  {
    if parts == [] then 0 else (if parts[0].Literal? then |parts[0].text| else 0) + 1 + Weight(parts[1..])
  }

  /** The message without the first character of its first literal. */
  function Shorter(parts: seq<Part>): seq<Part>
    requires parts != [] && parts[0].Literal? && parts[0].text != ""
  {
    [Literal(parts[0].text[1..])] + parts[1..]
  }

  /** What follows a closed run, read with the quote that closes it. */
  function AfterRun(parts: seq<Part>, args: seq<Value>): string
  {
    var r := QuotedRun([QUOTE] + Print(parts));
    r.0 + Rendered(r.1, args)
  }

  /** A run that ends before anything but a quote. */
  lemma RunEnds(t: string, args: seq<Value>)
    requires t == [] || t[0] != QUOTE
    ensures QuotedRun([QUOTE] + t) == ("", t) && LeadingQuotes(t) == 0
  {
    assert ([QUOTE] + t)[1..] == t;
  }

  /**
   * A literal's print by its first character: a quote is doubled, a brace opens the run, others stand for themselves.
   */
  lemma PrintedHead(parts: seq<Part>)
    requires parts != [] && parts[0].Literal? && parts[0].text != ""
    ensures var s, rest := parts[0].text, parts[1..];
            if s[0] == QUOTE then Print(parts) == [QUOTE, QUOTE] + Print(Shorter(parts))
            else if IsBrace(s[0]) then Print(parts) == [QUOTE] + (Doubled(s) + ([QUOTE] + Print(rest)))
            else Print(parts) != [] && Print(parts)[0] == s[0]
  {
    hide Doubled, IsBrace, PrintLiteral, Print;
    var s, rest := parts[0].text, parts[1..];
    assert Shorter(parts)[1..] == rest;
    PrintFirst(parts);
    PrintFirst(Shorter(parts));
    LiteralHead(s);
    if s[0] == QUOTE {
      Appended([QUOTE, QUOTE], PrintLiteral(s[1..]), Print(rest));
    } else if IsBrace(s[0]) {
      assert PrintLiteral(s) + Print(rest) == [QUOTE] + (Doubled(s) + ([QUOTE] + Print(rest)));
    } else {
      assert (PrintLiteral(s) + Print(rest))[0] == PrintLiteral(s)[0];
    }
  }

  lemma PrintFirst(parts: seq<Part>)
    requires parts != [] && parts[0].Literal?
    ensures Print(parts) == PrintLiteral(parts[0].text) + Print(parts[1..])
  {
    hide PrintLiteral;
  }

  lemma LiteralHead(s: string)
    requires s != ""
    ensures if s[0] == QUOTE then PrintLiteral(s) == [QUOTE, QUOTE] + PrintLiteral(s[1..])
            else if IsBrace(s[0]) then PrintLiteral(s) == [QUOTE] + (Doubled(s) + [QUOTE])
            else PrintLiteral(s) != [] && PrintLiteral(s)[0] == s[0]
  {
    var k := FirstBrace(s);
    if s[0] == QUOTE {
      QuoteHead(s);
    } else if IsBrace(s[0]) {
      assert s[0..] == s && Doubled(s[..0]) == [];
      assert [] + [QUOTE] == [QUOTE];
    } else if k < |s| {
      assert s[..k][0] == s[0];
    }
  }

  lemma QuoteHead(s: string)
    requires s != "" && s[0] == QUOTE
    ensures PrintLiteral(s) == [QUOTE, QUOTE] + PrintLiteral(s[1..])
  {
    var k := FirstBrace(s);
    assert FirstBrace(s[1..]) == k - 1;
    if k < |s| {
      var a, run := s[1..][..k - 1], Doubled(s[k..]) + [QUOTE];
      assert s[..k][1..] == a && s[k..] == s[1..][k - 1..];
      assert Doubled(s[..k]) == [QUOTE, QUOTE] + Doubled(a);
      assert Doubled(s[..k]) + [QUOTE] + run == [QUOTE, QUOTE] + (Doubled(a) + [QUOTE] + run);
    }
  }

  lemma ShorterActual(parts: seq<Part>, args: seq<Value>)
    requires parts != [] && parts[0].Literal? && parts[0].text != "" && !IsBrace(parts[0].text[0])
    ensures Actual(parts, args) == [parts[0].text[0]] + Actual(Shorter(parts), args)
    ensures Weight(Shorter(parts)) < Weight(parts) && (ValidNames(parts) ==> ValidNames(Shorter(parts)))
  {
    hide Trim, Lookup, Extra, Plain, IsBrace, ValidNames;
    var s := parts[0].text;
    assert Shorter(parts)[1..] == parts[1..];
    PlainTail(s);
    ShorterNames(parts);
    var tail := Actual(parts[1..], args);
    if Braced(parts[0]) {
      Appended([s[0]], s[1..], Extra(parts[1..]) + tail);
    } else {
      Appended([s[0]], s[1..], tail);
    }
  }

  lemma PlainTail(s: string)
    requires s != "" && !IsBrace(s[0])
    ensures Plain(s) <==> Plain(s[1..])
    ensures s == [s[0]] + s[1..]
  {
    assert s == [s[0]] + s[1..];
  }

  lemma ShorterNames(parts: seq<Part>)
    requires parts != [] && parts[0].Literal? && parts[0].text != ""
    ensures ValidNames(parts) ==> ValidNames(Shorter(parts))
  {
    assert forall p :: p in parts[1..] ==> p in parts;
  }

  lemma RestNames(parts: seq<Part>)
    requires parts != [] && ValidNames(parts)
    ensures ValidNames(parts[1..])
  {
    assert forall p :: p in parts[1..] ==> p in parts;
  }

  /** Behind a run, the rest renders as it would alone, after a quote more when it pairs up with the closing one. */
  lemma {:induction false} AfterRunIs(parts: seq<Part>, args: seq<Value>)
    requires ValidNames(parts)
    ensures AfterRun(parts, args) == Extra(parts) + Actual(parts, args)
    decreases Weight(parts), 1
  {
    hide Rendered, QuotedRun, Actual, Lookup, Trim, PrintLiteral, Doubled, Plain, LeadingQuotes, IsBrace;
    var t := Print(parts);
    if parts == [] || parts[0].Argument? {
      RunEnds(t, args);
      RenderedActual(parts, args);
      assert "" + Rendered(t, args) == Rendered(t, args);
    } else if parts[0].text == "" {
      EmptyLiteral(parts, args);
      RestNames(parts);
      AfterRunIs(parts[1..], args);
    } else {
      PrintedHead(parts);
      if parts[0].text[0] == QUOTE {
        AfterQuote(parts, args);
      } else if IsBrace(parts[0].text[0]) {
        AfterBrace(parts, args);
      } else {
        RunEnds(t, args);
        RenderedActual(parts, args);
        assert "" + Rendered(t, args) == Rendered(t, args);
      }
    }
  }

  lemma EmptyLiteral(parts: seq<Part>, args: seq<Value>)
    requires parts != [] && parts[0].Literal? && parts[0].text == ""
    ensures Print(parts) == Print(parts[1..]) && Actual(parts, args) == Actual(parts[1..], args)
  {
    hide Trim, Lookup, Extra;
    assert PrintLiteral("") == "";
    assert "" + Actual(parts[1..], args) == Actual(parts[1..], args);
  }

  lemma TwoMoreQuotes(t: string)
    ensures LeadingQuotes([QUOTE] + ([QUOTE] + t)) == 2 + LeadingQuotes(t)
  {
    assert ([QUOTE] + ([QUOTE] + t))[1..] == [QUOTE] + t;
    assert ([QUOTE] + t)[1..] == t;
  }

  lemma {:induction false} AfterQuote(parts: seq<Part>, args: seq<Value>)
    requires ValidNames(parts) && parts != [] && parts[0].Literal? && parts[0].text != "" && parts[0].text[0] == QUOTE
    ensures AfterRun(parts, args) == Extra(parts) + Actual(parts, args)
    decreases Weight(parts), 0
  {
    hide Rendered, QuotedRun, Actual, PrintLiteral, LeadingQuotes, Print;
    var shorter := Shorter(parts);
    PrintedHead(parts);
    ShorterActual(parts, args);
    AfterRunIs(shorter, args);
    var t := Print(shorter);
    assert [QUOTE] + Print(parts) == [QUOTE, QUOTE] + ([QUOTE] + t);
    assert Print(parts) == [QUOTE] + ([QUOTE] + t);
    RunPair([QUOTE] + t);
    TwoMoreQuotes(t);
    Appended([QUOTE], QuotedRun([QUOTE] + t).0, Rendered(QuotedRun([QUOTE] + t).1, args));
    assert Extra(parts) == Extra(shorter);
    assert Extra(shorter) + [QUOTE] == [QUOTE] + Extra(shorter);
    Appended(Extra(shorter), [QUOTE], Actual(shorter, args));
    Appended([QUOTE], Extra(shorter), Actual(shorter, args));
  }

  lemma {:induction false} AfterBrace(parts: seq<Part>, args: seq<Value>)
    requires ValidNames(parts) && parts != [] && parts[0].Literal? && parts[0].text != "" && IsBrace(parts[0].text[0])
    ensures AfterRun(parts, args) == Extra(parts) + Actual(parts, args)
    decreases Weight(parts), 0
  {
    hide Rendered, QuotedRun, PrintLiteral, LeadingQuotes, Print, Trim, Lookup;
    var s, rest := parts[0].text, parts[1..];
    PrintedHead(parts);
    RestNames(parts);
    AfterRunIs(rest, args);
    var closing := [QUOTE] + Print(rest);
    var run := Doubled(s) + closing;
    assert [QUOTE] + Print(parts) == [QUOTE, QUOTE] + run;
    RunPair(run);
    RunOfDoubled(s, closing);
    BraceFirst(s, closing);
    var r := QuotedRun(closing);
    assert Extra(parts) == [QUOTE];
    Appended([QUOTE], s + r.0, Rendered(r.1, args));
    Appended(s, r.0, Rendered(r.1, args));
  }

  lemma BraceFirst(s: string, tail: string)
    requires s != "" && IsBrace(s[0])
    ensures !Plain(s) && LeadingQuotes([QUOTE] + (Doubled(s) + tail)) == 1
  {
    DoubledHead(s, tail);
    var t := Doubled(s) + tail;
    assert ([QUOTE] + t)[1..] == t;
    assert s[0] in s;
  }

  /** What every message renders to. */
  lemma {:induction false} RenderedActual(parts: seq<Part>, args: seq<Value>)
    requires ValidNames(parts)
    ensures Rendered(Print(parts), args) == Actual(parts, args)
    decreases Weight(parts), 0
  {
    hide Rendered, Trim, Lookup, PrintLiteral, Plain, Extra, AfterRun;
    if parts == [] {
      NothingRendered(args);
    } else {
      var p, rest := parts[0], parts[1..];
      RestNames(parts);
      RenderedActual(rest, args);
      if p.Argument? {
        RenderedArgument(p.name, Print(rest), args);
      } else if Plain(p.text) {
        RenderedPlain(p.text, Print(rest), args);
      } else {
        AfterRunIs(rest, args);
        RenderedBraced(p.text, rest, args);
      }
    }
  }

  lemma RenderedPlain(s: string, rest: string, args: seq<Value>)
    requires Plain(s)
    ensures Rendered(PrintLiteral(s) + rest, args) == s + Rendered(rest, args)
  {
    hide Rendered, IsBrace, Doubled;
    RenderedDoubled(s, rest, args);
  }

  /** A literal with a brace: the text before the brace, the run, and what follows it. */
  lemma RenderedBraced(s: string, rest: seq<Part>, args: seq<Value>)
    requires !Plain(s)
    ensures Rendered(PrintLiteral(s) + Print(rest), args) == s + AfterRun(rest, args)
  {
    hide Rendered, QuotedRun, Plain, IsBrace, Doubled, Print;
    var k := FirstBrace(s);
    var a, b, closing := s[..k], s[k..], [QUOTE] + Print(rest);
    var run := Doubled(b) + closing;
    assert PrintLiteral(s) + Print(rest) == Doubled(a) + ([QUOTE] + run);
    RenderedDoubled(a, [QUOTE] + run, args);
    RunOfDoubled(b, closing);
    assert b[0] == s[k];
    DoubledHead(b, closing);
    RenderedRun(run, args);
    var r := QuotedRun(closing);
    Appended(b, r.0, Rendered(r.1, args));
    Appended(a, b, r.0 + Rendered(r.1, args));
    assert a + b == s;
  }

  // -------------------------------------------------------------- the theorem

  lemma {:induction false} LongerWhenClashing(parts: seq<Part>, args: seq<Value>)
    ensures |Actual(parts, args)| >= |Meaning(parts, args)|
    ensures Clashes(parts) ==> |Actual(parts, args)| > |Meaning(parts, args)|
    ensures !Clashes(parts) ==> Actual(parts, args) == Meaning(parts, args)
    decreases |parts|
  {
    hide Lookup, Trim, Plain, PairsUp;
    if parts != [] {
      LongerWhenClashing(parts[1..], args);
      ClashesStep(parts);
      assert "" + Actual(parts[1..], args) == Actual(parts[1..], args);
    }
  }

  lemma ClashesStep(parts: seq<Part>)
    requires parts != []
    ensures Clashes(parts) <==> (Braced(parts[0]) && PairsUp(parts[1..])) || Clashes(parts[1..])
  {
    hide Braced, PairsUp;
    var rest := parts[1..];
    forall i | 0 <= i < |rest| ensures rest[i] == parts[i + 1] && rest[i + 1..] == parts[i + 2..] {
    }
    if Clashes(rest) {
      var i :| 0 <= i < |rest| && Braced(rest[i]) && PairsUp(rest[i + 1..]);
      assert Braced(parts[i + 1]) && PairsUp(parts[i + 1 + 1..]);
    }
    if Clashes(parts) && !(Braced(parts[0]) && PairsUp(parts[1..])) {
      var i :| 0 <= i < |parts| && Braced(parts[i]) && PairsUp(parts[i + 1..]);
      assert Braced(rest[i - 1]) && PairsUp(rest[i - 1 + 1..]);
    }
  }

  /**
   * A message, quotes doubled and each literal put in one quoted run from its first brace on, renders to what it
   * means exactly unless a literal with a brace stands before a rest whose print begins with an odd number of
   * quotes: the run's closing quote and the next one then read as one doubled quote, and the output is longer.
   */
  lemma RenderOfPrinted(parts: seq<Part>, args: seq<Value>)
    requires ValidNames(parts)
    ensures Rendered(Print(parts), args) == Meaning(parts, args) <==> !Clashes(parts)
    ensures Clashes(parts) ==> |Rendered(Print(parts), args)| > |Meaning(parts, args)|
  {
    hide Rendered, Actual, Meaning, Clashes, Print;
    RenderedActual(parts, args);
    LongerWhenClashing(parts, args);
  }

  /** No two literals stand next to each other. */
  predicate Alternating(parts: seq<Part>)
  {
    forall i :: 0 <= i < |parts| - 1 && parts[i].Literal? ==> parts[i + 1].Argument?
  }

  /** So every message of alternating literals and arguments renders to what it means, for every literal text. */
  lemma RenderOfAlternating(parts: seq<Part>, args: seq<Value>)
    requires ValidNames(parts) && Alternating(parts)
    ensures Rendered(Print(parts), args) == Meaning(parts, args)
  {
    hide Rendered, Meaning, Print, PairsUp, Plain;
    RenderOfPrinted(parts, args);
    forall i | 0 <= i < |parts| && Braced(parts[i]) ensures !PairsUp(parts[i + 1..]) {
      ArgumentFirst(parts[i + 1..]);
    }
  }

  lemma ArgumentFirst(rest: seq<Part>)
    requires rest == [] || rest[0].Argument?
    ensures !PairsUp(rest)
  {
    if rest != [] { assert Print(rest)[0] == '{'; }
  }

  /** Two quoted literals in a row can clash: here the first one's closing quote meets three more. */
  lemma AdjacentLiteralsRunTogether(args: seq<Value>)
    ensures Rendered(Print([Literal("{"), Literal("'{")]), args) != Meaning([Literal("{"), Literal("'{")], args)
  {
    hide Rendered, Meaning, Print, LeadingQuotes, Plain;
    var parts := [Literal("{"), Literal("'{")];
    assert parts[0 + 1..] == [Literal("'{")];
    PrintedRest();
    ThreeQuotes();
    assert Braced(parts[0]) by { BraceFirst("{", ""); }
    RenderOfPrinted(parts, args);
  }

  lemma PrintedRest()
    ensures Print([Literal("'{")]) == "'''{'"
  {
    hide Doubled, PrintLiteral, IsBrace;
    var rest, shorter := [Literal("'{")], [Literal("{")];
    assert "'{"[1..] == "{" && rest[1..] == [] && Shorter(rest) == shorter;
    assert shorter[1..] == [];
    PrintedHead(rest);
    PrintedHead(shorter);
    assert Doubled("{") == "{" by { OneBrace(); }
    assert IsBrace("{"[0]) by { IsOne(); }
  }

  lemma IsOne()
    ensures IsBrace('{')
  {
  }

  lemma OneBrace()
    ensures Doubled("{") == "{"
  {
    assert "{"[1..] == "";
  }

  lemma ThreeQuotes()
    ensures LeadingQuotes("'''{'") == 3
  {
    var s := "'''{'";
    assert s[1..] == "''{'" && s[1..][1..] == "'{'" && s[1..][1..][1..] == "{'";
  }
}
