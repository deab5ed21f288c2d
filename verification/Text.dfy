/** Options, decimal text and splitting, as the printers and parsers of the other modules use them. */
module Text {

  datatype Option<+T> = None | Some(value: T)

  // ---------------------------------------------------------------- splitting

  /** `split(sep)`: the parts between separators, at least one. */
  function Split<T(==)>(s: seq<T>, sep: T): (parts: seq<seq<T>>)
    ensures |parts| >= 1
  {
    if s == [] then [[]]
    else
      var rest := Split(s[1..], sep);
      if s[0] == sep then [[]] + rest else [[s[0]] + rest[0]] + rest[1..]
  }

  /** `join(sep)`: what `Split` takes apart. */
  function Join<T>(parts: seq<seq<T>>, sep: T): seq<T>
  {
    if parts == [] then []
    else if |parts| == 1 then parts[0]
    else parts[0] + [sep] + Join(parts[1..], sep)
  }

  lemma {:induction false} SplitPlain<T>(s: seq<T>, sep: T)
    requires sep !in s
    ensures Split(s, sep) == [s]
  {
    if s != [] {
      SplitPlain(s[1..], sep);
      assert [s[0]] + s[1..] == s;
    }
  }

  lemma {:induction false} SplitFirst<T>(a: seq<T>, b: seq<T>, sep: T)
    requires sep !in a
    ensures Split(a + [sep] + b, sep) == [a] + Split(b, sep)
  {
    var s := a + [sep] + b;
    if a == [] {
      assert s[1..] == b;
    } else {
      SplitFirst(a[1..], b, sep);
      assert s[1..] == a[1..] + [sep] + b;
      assert [a[0]] + a[1..] == a;
    }
  }

  /** Joining what was split gives the text back, and no part holds a separator. */
  lemma {:induction false} SplitThenJoin<T>(s: seq<T>, sep: T)
    ensures Join(Split(s, sep), sep) == s
    ensures forall p :: p in Split(s, sep) ==> sep !in p
  {
    if s != [] {
      SplitThenJoin(s[1..], sep);
      var rest := Split(s[1..], sep);
      if s[0] == sep {
        assert [] + [sep] + s[1..] == s;
      } else {
        var parts := Split(s, sep);
        assert parts[1..] == rest[1..];
        if |rest| == 1 {
          assert rest[0] == s[1..];
        } else {
          assert Join(parts, sep) == [s[0]] + Join(rest, sep);
        }
        forall p | p in parts ensures sep !in p {
          if p == parts[0] { assert rest[0] in rest; }
        }
      }
    }
  }

  /** `split_once(|c| c in seps)`: around the first separator. */
  function SplitOnce(s: string, seps: set<char>): Option<(string, string)>
  {
    if s == [] then None
    else if s[0] in seps then Some(([], s[1..]))
    else match SplitOnce(s[1..], seps)
      case None => None
      case Some(p) => Some(([s[0]] + p.0, p.1))
  }

  lemma {:induction false} SplitOnceAt(a: string, c: char, b: string, seps: set<char>)
    requires c in seps && forall x :: x in a ==> x !in seps
    ensures SplitOnce(a + [c] + b, seps) == Some((a, b))
  {
    var s := a + [c] + b;
    if a == [] {
      assert s[1..] == b;
    } else {
      SplitOnceAt(a[1..], c, b, seps);
      assert s[1..] == a[1..] + [c] + b;
      assert [a[0]] + a[1..] == a;
    }
  }

  lemma {:induction false} SplitOnceNone(s: string, seps: set<char>)
    requires forall c :: c in s ==> c !in seps
    ensures SplitOnce(s, seps) == None
  {
    if s != [] { SplitOnceNone(s[1..], seps); }
  }

  // ---------------------------------------------------------------- decimals

  predicate IsDigit(c: char) { '0' <= c <= '9' }

  predicate AllDigits(s: string) { forall c :: c in s ==> IsDigit(c) }

  function Digit(d: nat): (c: char)
    requires d < 10
    ensures IsDigit(c) && c as int - '0' as int == d
  {
    '0' + d as char
  }

  /** The digits of `n`, zero-padded to at least `width` (`{:0width}`). */
  function Pad(n: nat, width: nat): (s: string)
    ensures AllDigits(s) && |s| >= width
    ensures width >= 1 ==> |s| >= 1
    decreases n, width
  {
    if n == 0 && width == 0 then ""
    else Pad(n / 10, if width == 0 then 0 else width - 1) + [Digit(n % 10)]
  }

  /** `to_string` of a non-negative number. */
  function Decimal(n: nat): string { Pad(n, 1) }

  /** `{:0width}` of a signed number: the sign counts towards the width. */
  function PadSigned(n: int, width: nat): string
  {
    if n >= 0 then Pad(n, width) else "-" + Pad(-n, if width == 0 then 0 else width - 1)
  }

  /** The number a run of digits stands for. */
  function NatOf(s: string): nat
    requires AllDigits(s)
  {
    if s == [] then 0
    else
      assert s[|s| - 1] in s;
      NatOf(s[..|s| - 1]) * 10 + (s[|s| - 1] as int - '0' as int)
  }

  lemma {:induction false} NatOfPad(n: nat, width: nat)
    ensures NatOf(Pad(n, width)) == n
    decreases n, width
  {
    if n != 0 || width != 0 {
      var w := if width == 0 then 0 else width - 1;
      NatOfPad(n / 10, w);
      var s := Pad(n, width);
      assert s[..|s| - 1] == Pad(n / 10, w);
    }
  }

  function Power10(k: nat): nat { if k == 0 then 1 else 10 * Power10(k - 1) }

  /** A number of at most `width` digits is padded to exactly `width`; a longer one isn't. */
  lemma {:induction false} PadWidth(n: nat, width: nat)
    ensures n < Power10(width) <==> |Pad(n, width)| == width
    decreases n, width
  {
    if width == 0 {
      if n > 0 { assert |Pad(n, 0)| >= 1; }
    } else {
      PadWidth(n / 10, width - 1);
    }
  }

  lemma {:induction false} PadShort(n: nat, width: nat, k: nat)
    requires n < Power10(k) && width <= k
    ensures |Pad(n, width)| <= k
    decreases n, width
  {
    if n != 0 || width != 0 { PadShort(n / 10, if width == 0 then 0 else width - 1, k - 1); }
  }

  /** The text spells the number: its digits, filled up with zeros to the width and no further. */
  predicate Spells(s: string, n: nat, width: nat)
  {
    AllDigits(s) && NatOf(s) == n && |s| >= width && (|s| > width ==> s[0] != '0')
  }

  lemma {:induction false} PadSpells(n: nat, width: nat)
    ensures Spells(Pad(n, width), n, width)
    decreases n, width
  {
    NatOfPad(n, width);
    if n != 0 || width != 0 {
      var w := if width == 0 then 0 else width - 1;
      PadSpells(n / 10, w);
      if |Pad(n, width)| > width && Pad(n / 10, w) == [] { assert n / 10 == 0 && width == 0; }
    }
  }

  const I64_MAX: int := 0x7fff_ffff_ffff_ffff
  const I64_MIN: int := -0x8000_0000_0000_0000

  /** `str::parse::<i64>`: an optional sign and at least one digit, in range. */
  function ParseI64(s: string): Option<int>
  {
    if s == [] then None
    else
      var negative := s[0] == '-';
      var digits := if negative || s[0] == '+' then s[1..] else s;
      if digits == [] || !AllDigits(digits) then None
      else
        var magnitude: int := NatOf(digits);
        var v := if negative then -magnitude else magnitude;
        if I64_MIN <= v <= I64_MAX then Some(v) else None
  }

  lemma ParsePad(n: nat, width: nat)
    requires width >= 1 && n <= I64_MAX
    ensures ParseI64(Pad(n, width)) == Some(n)
  {
    NatOfPad(n, width);
    var s := Pad(n, width);
    assert s[0] in s;
  }

  // ------------------------------------------------------------------- bytes

  /** `str::len` of one character: its UTF-8 bytes. */
  function Width(c: char): nat
  {
    if c < '\U{80}' then 1 else if c < '\U{800}' then 2 else if c < '\U{10000}' then 3 else 4
  }

  /** `str::len`. */
  function ByteLen(s: string): nat
  {
    if s == [] then 0 else ByteLen(s[..|s| - 1]) + Width(s[|s| - 1])
  }

  lemma {:induction false} ByteLenAppend(a: string, b: string)
    ensures ByteLen(a + b) == ByteLen(a) + ByteLen(b)
    decreases |b|
  {
    if b == [] {
      assert a + b == a;
    } else {
      ByteLenAppend(a, b[..|b| - 1]);
      assert (a + b)[..|a + b| - 1] == a + b[..|b| - 1];
    }
  }

  /** Every character takes a byte at least, and an ASCII one no more. */
  lemma {:induction false} BytesOfChars(s: string)
    ensures |s| <= ByteLen(s)
    ensures (forall c :: c in s ==> c < '\U{80}') ==> ByteLen(s) == |s|
    decreases |s|
  {
    if s != [] {
      var init, last := s[..|s| - 1], s[|s| - 1];
      BytesOfChars(init);
      assert s == init + [last];
      if forall c :: c in s ==> c < '\U{80}' {
        forall c | c in init ensures c < '\U{80}' { assert c in s; }
        assert last in s;
      }
    }
  }

  /** A signed number of 64 bits takes 20 bytes at most, and one that isn't negative 19. */
  lemma BytesOfI64(n: int, width: nat)
    requires I64_MIN <= n <= I64_MAX && width <= 19
    ensures ByteLen(PadSigned(n, width)) <= if n < 0 then 20 else 19
    ensures width >= 1 ==> PadSigned(n, width) != ""
  {
    assert Power10(7) == 10_000_000 && Power10(13) == 10_000_000_000_000;
    assert Power10(19) == 10_000_000_000_000_000_000;
    var digits := if n >= 0 then Pad(n, width) else Pad(-n, if width == 0 then 0 else width - 1);
    PadShort(if n < 0 then -n else n, if n < 0 && width > 0 then width - 1 else width, 19);
    BytesOfChars(PadSigned(n, width));
  }
}
