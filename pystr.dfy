/**
  The Python `str` built-ins that the audit reader relies on, written out
  over `seq<char>`: `split()` with no argument, `split(sep, 1)`,
  `strip(' "')`, `lower()` and `' '.join(...)`.
*/
module PyStr {
  import opened Wrappers

  // ---------------------------------------------------------------------
  // Whitespace and `str.split()`
  // ---------------------------------------------------------------------

  /** The characters Python's `str.split()` (no argument) treats as whitespace. */
  predicate IsSpace(c: char)
  {
    var n := c as int;
    (0x09 <= n <= 0x0D) || (0x1C <= n <= 0x20) || n == 0x85 || n == 0xA0 ||
    n == 0x1680 || (0x2000 <= n <= 0x200A) || n == 0x2028 || n == 0x2029 ||
    n == 0x202F || n == 0x205F || n == 0x3000
  }

  predicate AllSpace(s: string)
  {
    forall i :: 0 <= i < |s| ==> IsSpace(s[i])
  }

  /** A token produced by `split()`: non-empty and free of whitespace. */
  predicate IsWord(t: string)
  {
    |t| > 0 && forall i :: 0 <= i < |t| ==> !IsSpace(t[i])
  }

  /** Length of the leading run of non-whitespace characters. */
  function WordLength(s: string): (n: nat)
    ensures n <= |s|
    ensures forall i :: 0 <= i < n ==> !IsSpace(s[i])
    ensures n < |s| ==> IsSpace(s[n])
  {
    if |s| == 0 || IsSpace(s[0]) then 0 else 1 + WordLength(s[1..])
  }

  /**
    `s.split()`: whitespace is skipped, and each maximal run of other
    characters is one token, in order.
  */
  function Split(s: string): (r: seq<string>)
    ensures forall t :: t in r ==> IsWord(t)
    ensures r == [] <==> AllSpace(s)
    decreases |s|
  {
    if s == [] then []
    else if IsSpace(s[0]) then
      assert AllSpace(s) <==> AllSpace(s[1..]) by {
        if AllSpace(s[1..]) {
          forall i | 0 < i < |s| ensures IsSpace(s[i]) { assert s[i] == s[1..][i - 1]; }
        }
      }
      Split(s[1..])
    else
      var w := WordLength(s);
      [s[..w]] + Split(s[w..])
  }

  /** `sep.join(xs)`. */
  function Join(xs: seq<string>, sep: string): string
  {
    if |xs| == 0 then ""
    else if |xs| == 1 then xs[0]
    else xs[0] + sep + Join(xs[1..], sep)
  }

  /** A character found in neither the pieces nor the separator is not in their join. */
  lemma {:induction false} JoinAvoids(xs: seq<string>, sep: string, c: char)
    requires forall i :: 0 <= i < |xs| ==> c !in xs[i]
    requires c !in sep
    ensures c !in Join(xs, sep)
    decreases |xs|
  {
    if |xs| > 1 {
      JoinAvoids(xs[1..], sep, c);
      assert xs[1..][0] == xs[1];
    }
  }

  lemma {:induction false} WordLengthOfWord(t: string, rest: string)
    requires IsWord(t)
    requires rest == [] || IsSpace(rest[0])
    ensures WordLength(t + rest) == |t|
    decreases |t|
  {
    assert (t + rest)[0] == t[0];
    if |t| > 1 {
      assert (t + rest)[1..] == t[1..] + rest;
      WordLengthOfWord(t[1..], rest);
    } else {
      assert (t + rest)[1..] == rest;
    }
  }

  lemma SplitOfWordFirst(t: string, rest: string)
    requires IsWord(t)
    requires rest == [] || IsSpace(rest[0])
    ensures Split(t + rest) == [t] + Split(rest)
  {
    var s := t + rest;
    assert s[0] == t[0];
    WordLengthOfWord(t, rest);
    assert s[..|t|] == t;
    assert s[|t|..] == rest;
  }

  /** Whitespace in front of a string does not change its split. */
  lemma {:induction false} SplitSkipsSpaces(g: string, s: string)
    requires AllSpace(g)
    ensures Split(g + s) == Split(s)
    decreases |g|
  {
    if g == [] {
      assert g + s == s;
    } else {
      assert (g + s)[0] == g[0];
      assert (g + s)[1..] == g[1..] + s;
      SplitSkipsSpaces(g[1..], s);
    }
  }

  /** Splitting a single-space join of words gives the words back. */
  lemma {:induction false} SplitJoinRoundTrip(xs: seq<string>)
    requires forall i :: 0 <= i < |xs| ==> IsWord(xs[i])
    ensures Split(Join(xs, " ")) == xs
  {
    if |xs| == 0 {
    } else if |xs| == 1 {
      SplitOfWordFirst(xs[0], "");
      assert xs[0] + "" == xs[0];
    } else {
      var rest := Join(xs[1..], " ");
      assert Join(xs, " ") == xs[0] + ([' '] + rest);
      SplitJoinRoundTrip(xs[1..]);
      SplitSkipsSpaces([' '], rest);
      assert IsWord(xs[0]);
      SplitOfWordFirst(xs[0], [' '] + rest);
      calc {
        Split(Join(xs, " "));
        Split(xs[0] + ([' '] + rest));
        [xs[0]] + Split([' '] + rest);
        [xs[0]] + Split(rest);
        [xs[0]] + xs[1..];
        xs;
      }
    }
  }

  /**
    The words `xs` laid out with the whitespace runs `gaps` around and
    between them: `gaps[0] + xs[0] + gaps[1] + ... + xs[n-1] + gaps[n]`.
  */
  function Layout(xs: seq<string>, gaps: seq<string>): string
    requires |gaps| == |xs| + 1
    decreases |xs|
  {
    if xs == [] then gaps[0] else gaps[0] + xs[0] + Layout(xs[1..], gaps[1..])
  }

  /** Gaps that `split()` reads as separators: all whitespace, and non-empty between two words. */
  predicate Separates(xs: seq<string>, gaps: seq<string>)
  {
    && |gaps| == |xs| + 1
    && (forall i :: 0 <= i < |gaps| ==> AllSpace(gaps[i]))
    && (forall i :: 0 < i < |xs| ==> gaps[i] != "")
  }

  lemma SeparatesTail(xs: seq<string>, gaps: seq<string>)
    requires Separates(xs, gaps) && xs != []
    ensures Separates(xs[1..], gaps[1..])
  {
    forall i | 0 < i < |xs[1..]| ensures gaps[1..][i] != "" {
      assert gaps[1..][i] == gaps[i + 1];
    }
    forall i | 0 <= i < |gaps[1..]| ensures AllSpace(gaps[1..][i]) {
      assert gaps[1..][i] == gaps[i + 1];
    }
  }

  /** The text after the first word of a layout is empty or starts with whitespace. */
  lemma LayoutAfterWord(xs: seq<string>, gaps: seq<string>)
    requires Separates(xs, gaps) && xs != []
    ensures var rest := Layout(xs[1..], gaps[1..]); rest == [] || IsSpace(rest[0])
  {
    var rest := Layout(xs[1..], gaps[1..]);
    if |xs| > 1 {
      assert gaps[1] != "" && AllSpace(gaps[1]);
      assert rest == gaps[1..][0] + xs[1..][0] + Layout(xs[1..][1..], gaps[1..][1..]);
      assert rest[0] == gaps[1][0];
    } else {
      assert rest == gaps[1];
    }
  }

  /**
    Splitting words laid out with any leading, trailing and separating
    whitespace gives the words back.
  */
  lemma {:induction false} SplitLayout(xs: seq<string>, gaps: seq<string>)
    requires forall i :: 0 <= i < |xs| ==> IsWord(xs[i])
    requires Separates(xs, gaps)
    ensures Split(Layout(xs, gaps)) == xs
    decreases |xs|
  {
    if xs == [] {
      assert AllSpace(gaps[0]);
    } else {
      var rest := Layout(xs[1..], gaps[1..]);
      assert Layout(xs, gaps) == gaps[0] + (xs[0] + rest);
      SplitSkipsSpaces(gaps[0], xs[0] + rest);
      LayoutAfterWord(xs, gaps);
      SplitOfWordFirst(xs[0], rest);
      SeparatesTail(xs, gaps);
      SplitLayout(xs[1..], gaps[1..]);
      assert [xs[0]] + xs[1..] == xs;
    }
  }

  /** A layout that starts with a word starts with a non-space character. */
  lemma LayoutStartsWithWord(xs: seq<string>, gaps: seq<string>)
    requires |gaps| == |xs| + 1 && xs != [] && IsWord(xs[0]) && gaps[0] == ""
    ensures |Layout(xs, gaps)| > 0 && !IsSpace(Layout(xs, gaps)[0])
  {
    assert Layout(xs, gaps) == xs[0] + Layout(xs[1..], gaps[1..]);
  }

  /** One more whitespace character in front of a layout widens its first gap. */
  lemma LayoutWidenFirstGap(c: char, xs: seq<string>, gaps: seq<string>)
    requires |gaps| == |xs| + 1
    ensures Layout(xs, [[c] + gaps[0]] + gaps[1..]) == [c] + Layout(xs, gaps)
  {
    var gaps' := [[c] + gaps[0]] + gaps[1..];
    assert gaps'[1..] == gaps[1..];
  }

  /**
    The whitespace runs of `s`: every string is its split laid out with
    these gaps, so `SplitLayout` covers every input.
  */
  function Gaps(s: string): (gaps: seq<string>)
    ensures Separates(Split(s), gaps)
    ensures Layout(Split(s), gaps) == s
    decreases |s|
  {
    if s == [] then [""]
    else if IsSpace(s[0]) then
      var g := Gaps(s[1..]);
      var gaps := [[s[0]] + g[0]] + g[1..];
      LayoutWidenFirstGap(s[0], Split(s[1..]), g);
      assert [s[0]] + s[1..] == s;
      assert Separates(Split(s), gaps) by {
        assert AllSpace([s[0]] + g[0]) by {
          forall i | 0 <= i < |[s[0]] + g[0]| ensures IsSpace(([s[0]] + g[0])[i]) {
            if i > 0 { assert ([s[0]] + g[0])[i] == g[0][i - 1]; }
          }
        }
        forall i | 0 < i < |gaps| ensures gaps[i] == g[i] { }
      }
      gaps
    else
      var w := WordLength(s);
      var rest := s[w..];
      var g := Gaps(rest);
      var gaps := [""] + g;
      assert gaps[1..] == g;
      assert Split(s)[1..] == Split(rest);
      assert s == "" + s[..w] + rest;
      GapsSeparate(s, w, g);
      gaps
  }

  lemma GapsSeparate(s: string, w: nat, g: seq<string>)
    requires s != [] && !IsSpace(s[0]) && w == WordLength(s)
    requires Separates(Split(s[w..]), g) && Layout(Split(s[w..]), g) == s[w..]
    ensures Separates(Split(s), [""] + g)
  {
    var rest := s[w..];
    var gaps := [""] + g;
    assert Split(s) == [s[..w]] + Split(rest);
    forall i | 0 <= i < |gaps| ensures AllSpace(gaps[i]) {
      if i > 0 { assert gaps[i] == g[i - 1]; }
    }
    forall i | 0 < i < |Split(s)| ensures gaps[i] != "" {
      assert gaps[i] == g[i - 1];
      if i == 1 && g[0] == "" {
        assert Split(rest) != [];
        assert rest != "" && IsSpace(rest[0]);
        LayoutStartsWithWord(Split(rest), g);
        assert false;
      }
    }
  }

  // ---------------------------------------------------------------------
  // `str.split(sep, 1)`
  // ---------------------------------------------------------------------

  /** Index of the first `c` in `s`, or `|s|` when there is none. */
  function FirstIndexOf(s: string, c: char): (i: nat)
    ensures i <= |s|
    ensures c !in s[..i]
    ensures i < |s| ==> s[i] == c
  {
    if |s| == 0 then 0
    else if s[0] == c then 0
    else
      var j := FirstIndexOf(s[1..], c);
      assert s[..j + 1] == [s[0]] + s[1..][..j];
      1 + j
  }

  /**
    `s.split(sep, 1)` unpacked into two names: a pair when `sep` occurs,
    cut at its first occurrence (`SplitOnceCut`), and `None` when the
    unpacking would fail because the split gave a single piece.
  */
  function SplitOnce(s: string, sep: char): (r: Option<(string, string)>)
    ensures r.None? <==> sep !in s
  {
    var i := FirstIndexOf(s, sep);
    if i == |s| then
      assert s[..i] == s;
      None
    else
      Some((s[..i], s[i+1..]))
  }

  /** The pair glues back to the input around the first `sep`. */
  lemma SplitOnceCut(s: string, sep: char)
    requires sep in s
    ensures var (left, right) := SplitOnce(s, sep).value;
            s == left + [sep] + right && sep !in left
  {
    var i := FirstIndexOf(s, sep);
    assert s == s[..i] + [sep] + s[i+1..];
  }

  /** The cut made by `SplitOnce` is the only one with no `sep` on its left. */
  lemma SplitOnceUnique(s: string, sep: char, left: string, right: string)
    requires s == left + [sep] + right
    requires sep !in left
    ensures SplitOnce(s, sep) == Some((left, right))
  {
    assert sep in s by { assert s[|left|] == sep; }
    SplitOnceCut(s, sep);
    var (a, b) := SplitOnce(s, sep).value;
    assert forall k :: 0 <= k < |a| ==> s[k] != sep;
    assert forall k :: 0 <= k < |left| ==> s[k] != sep;
    assert s[|a|] == sep && s[|left|] == sep;
    assert a == s[..|a|] == left;
    assert b == s[|a| + 1..] == right;
  }

  // ---------------------------------------------------------------------
  // `str.strip(' "')`
  // ---------------------------------------------------------------------

  /** The characters passed to `strip`: space and the double quote. */
  predicate IsStripChar(c: char)
  {
    c == ' ' || c == '"'
  }

  /** Number of leading spaces and double quotes. */
  function LeadingStripChars(s: string): (n: nat)
    ensures n <= |s|
    ensures forall i :: 0 <= i < n ==> IsStripChar(s[i])
    ensures n < |s| ==> !IsStripChar(s[n])
  {
    if |s| > 0 && IsStripChar(s[0]) then 1 + LeadingStripChars(s[1..]) else 0
  }

  /** Number of trailing spaces and double quotes. */
  function TrailingStripChars(s: string): (n: nat)
    ensures n <= |s|
    ensures forall i :: |s| - n <= i < |s| ==> IsStripChar(s[i])
    ensures n < |s| ==> !IsStripChar(s[|s| - n - 1])
  {
    if |s| > 0 && IsStripChar(s[|s| - 1]) then 1 + TrailingStripChars(s[..|s| - 1]) else 0
  }

  /**
    `s.strip(' "')`: the slice left after removing every leading and every
    trailing space or double quote.
  */
  function Strip(s: string): (r: string)
    ensures r != [] ==> !IsStripChar(r[0]) && !IsStripChar(r[|r| - 1])
  {
    var t := s[LeadingStripChars(s)..];
    t[..|t| - TrailingStripChars(t)]
  }

  /**
    What `strip` removes: the result is a slice of the input, and only
    spaces and double quotes lie outside it.
  */
  lemma StripIsSlice(s: string)
    ensures exists i, j :: 0 <= i <= j <= |s| && Strip(s) == s[i..j] &&
                           (forall k :: 0 <= k < i ==> IsStripChar(s[k])) &&
                           (forall k :: j <= k < |s| ==> IsStripChar(s[k]))
  {
    var i := LeadingStripChars(s);
    var t := s[i..];
    var j := i + |t| - TrailingStripChars(t);
    assert Strip(s) == s[i..j];
    forall k | j <= k < |s| ensures IsStripChar(s[k]) {
      assert s[k] == t[k - i];
    }
  }

  /** Stripping twice removes nothing more. */
  lemma StripIdempotent(s: string)
    ensures Strip(Strip(s)) == Strip(s)
  {
    StripKeeps(Strip(s));
  }

  /** Stripping leaves alone a value with no space or quote at either end. */
  lemma StripKeeps(v: string)
    requires v == [] || (!IsStripChar(v[0]) && !IsStripChar(v[|v| - 1]))
    ensures Strip(v) == v
  {
    assert LeadingStripChars(v) == 0;
    assert v[0..] == v;
    assert TrailingStripChars(v) == 0;
  }

  /** Quoting such a value and stripping gives it back. */
  lemma StripQuoted(v: string)
    requires v == [] || (!IsStripChar(v[0]) && !IsStripChar(v[|v| - 1]))
    ensures Strip("\"" + v + "\"") == v
  {
    var q := "\"" + v + "\"";
    assert q[1..] == v + "\"";
    if v == [] {
      assert LeadingStripChars(q) == 2;
    } else {
      assert LeadingStripChars(q[1..]) == 0;
      assert LeadingStripChars(q) == 1;
      var t := v + "\"";
      assert t[..|t| - 1] == v;
      assert TrailingStripChars(v) == 0;
      assert TrailingStripChars(t) == 1;
    }
  }

  // ---------------------------------------------------------------------
  // `str.lower()`
  // ---------------------------------------------------------------------

  function LowerChar(c: char): (d: char)
  {
    if 'A' <= c <= 'Z' then (c as int + 32) as char else c
  }

  /** `s.lower()`, restricted to the ASCII case mapping. */
  function Lower(s: string): (r: string)
    ensures |r| == |s|
    ensures forall i :: 0 <= i < |s| ==> r[i] == LowerChar(s[i])
  {
    seq(|s|, i requires 0 <= i < |s| => LowerChar(s[i]))
  }
}
