/**
 * The JavaScript string built-ins the worker relies on: `indexOf`,
 * `split` and `join` with a literal separator, `includes`, the `\s`
 * character class and `trim`.  Strings are sequences of characters.
 */
module JsString {
  import opened Wrappers

  /** `sep` occurs in `s` starting at position `k`. */
  predicate OccursAt(s: string, sep: string, k: nat)
  {
    k + |sep| <= |s| && s[k..k + |sep|] == sep
  }

  /** Occurrences in `s[1..]` are the occurrences in `s` one position further on. */
  lemma OccursShift(s: string, sep: string)
    requires s != []
    ensures forall k: nat {:trigger OccursAt(s, sep, k)} :: 1 <= k ==> (OccursAt(s, sep, k) <==> OccursAt(s[1..], sep, k - 1))
  {
    forall k: nat | 1 <= k
      ensures OccursAt(s, sep, k) <==> OccursAt(s[1..], sep, k - 1)
    {
      if k + |sep| <= |s| {
        assert s[1..][k - 1..k - 1 + |sep|] == s[k..k + |sep|];
      }
    }
  }

  /** Position of the leftmost occurrence of `sep` in `s`, as `s.indexOf(sep)` finds it. */
  function IndexOf(s: string, sep: string): (r: Option<nat>)
    requires |sep| > 0
    ensures r.Some? ==> OccursAt(s, sep, r.value)
    decreases |s|
  {
    if |s| < |sep| then None
    else if s[..|sep|] == sep then Some(0)
    else
      match IndexOf(s[1..], sep)
      case None => None
      case Some(i) =>
        OccursShift(s, sep);
        Some(i + 1)
  }

  /** `indexOf` finds the leftmost occurrence, and finds none only when there is none. */
  lemma {:induction false} IndexOfLeftmost(s: string, sep: string)
    requires |sep| > 0
    ensures IndexOf(s, sep).Some? ==> forall k: nat :: k < IndexOf(s, sep).value ==> !OccursAt(s, sep, k)
    ensures IndexOf(s, sep).None? ==> forall k: nat :: !OccursAt(s, sep, k)
    decreases |s|
  {
    if |s| >= |sep| && s[..|sep|] != sep {
      IndexOfLeftmost(s[1..], sep);
      OccursShift(s, sep);
    }
  }

  /** `s.includes(t)` for a non-empty `t`. */
  function Includes(s: string, t: string): (b: bool)
    requires |t| > 0
    ensures b <==> exists k: nat :: OccursAt(s, t, k)
  {
    IndexOfLeftmost(s, t);
    IndexOf(s, t).Some?
  }

  /** `s.split(sep)` for a non-empty literal separator: the pieces between successive leftmost occurrences. */
  function Split(s: string, sep: string): (parts: seq<string>)
    requires |sep| > 0
    ensures |parts| >= 1
    decreases |s|
  {
    var r := IndexOf(s, sep);
    if r.None? then [s] else [s[..r.value]] + Split(s[r.value + |sep|..], sep)
  }

  /** The number of characters in all of `parts` together. */
  function TotalLength(parts: seq<string>): nat
  {
    if parts == [] then 0 else |parts[0]| + TotalLength(parts[1..])
  }

  /** `parts.join(sep)`; joining no parts gives the empty string. */
  function Join(parts: seq<string>, sep: string): string
  {
    if |parts| == 0 then ""
    else if |parts| == 1 then parts[0]
    else parts[0] + sep + Join(parts[1..], sep)
  }

  /** A join holds every part and one separator between each two, and nothing else. */
  lemma {:induction false} JoinLength(parts: seq<string>, sep: string)
    requires |parts| > 0
    ensures |Join(parts, sep)| == TotalLength(parts) + (|parts| - 1) * |sep|
  {
    if |parts| > 1 {
      JoinLength(parts[1..], sep);
      assert (|parts| - 1) * |sep| == (|parts| - 2) * |sep| + |sep|;
    }
  }

  /** Joining a first part onto at least one more puts the separator between them. */
  lemma JoinCons(first: string, rest: seq<string>, sep: string)
    requires |rest| > 0
    ensures Join([first] + rest, sep) == first + sep + Join(rest, sep)
  {
    assert ([first] + rest)[1..] == rest;
  }

  /** A string cut around an occurrence of `sep` is the part before, `sep`, and the part after. */
  lemma CutAround(s: string, sep: string, i: nat)
    requires OccursAt(s, sep, i)
    ensures s == s[..i] + sep + s[i + |sep|..]
  {
  }

  /** Splitting and joining back with the same separator gives the input again. */
  lemma {:induction false} JoinSplit(s: string, sep: string)
    requires |sep| > 0
    ensures Join(Split(s, sep), sep) == s
    decreases |s|
  {
    if IndexOf(s, sep).Some? {
      var i := IndexOf(s, sep).value;
      var rest := s[i + |sep|..];
      JoinSplit(rest, sep);
      JoinCons(s[..i], Split(rest, sep), sep);
      CutAround(s, sep, i);
    }
  }

  /** One step of `split`: the piece before the first separator, then the split of the rest. */
  lemma SplitAt(s: string, sep: string, i: nat)
    requires |sep| > 0 && IndexOf(s, sep) == Some(i)
    ensures Split(s, sep) == [s[..i]] + Split(s[i + |sep|..], sep)
  {
  }

  /** Without an occurrence of the separator, `split` gives the whole string as its one piece. */
  lemma SplitNone(s: string, sep: string)
    requires |sep| > 0 && IndexOf(s, sep).None?
    ensures Split(s, sep) == [s]
  {
  }

  /** A prefix of `s` that ends before the leftmost occurrence of `sep` holds no occurrence of it. */
  lemma PrefixBeforeFirst(s: string, sep: string, i: nat)
    requires |sep| > 0 && IndexOf(s, sep) == Some(i)
    ensures !Includes(s[..i], sep)
  {
    IndexOfLeftmost(s, sep);
    forall k: nat | OccursAt(s[..i], sep, k)
      ensures false
    {
      assert s[..i][k..k + |sep|] == s[k..k + |sep|];
      assert OccursAt(s, sep, k);
    }
  }

  /** No piece of a split contains the separator: every occurrence was cut out. */
  lemma {:induction false} SplitPartsFree(s: string, sep: string)
    requires |sep| > 0
    ensures forall j :: 0 <= j < |Split(s, sep)| ==> !Includes(Split(s, sep)[j], sep)
    decreases |s|
  {
    match IndexOf(s, sep)
    case None =>
      IndexOfLeftmost(s, sep);
    case Some(i) =>
      var rest := s[i + |sep|..];
      SplitPartsFree(rest, sep);
      PrefixBeforeFirst(s, sep, i);
      SplitAt(s, sep, i);
  }

  /** Everything after the first piece of a split, joined again, is a suffix of the input. */
  lemma SplitTailSuffix(s: string, sep: string)
    requires |sep| > 0
    ensures var r := Join(Split(s, sep)[1..], sep);
      |r| <= |s| && r == s[|s| - |r|..]
  {
    match IndexOf(s, sep)
    case None =>
      SplitNone(s, sep);
    case Some(i) =>
      SplitTail(s, sep, i);
  }

  /** Everything after the first piece of a split, joined again, is the text after the first separator. */
  lemma SplitTail(s: string, sep: string, i: nat)
    requires |sep| > 0 && IndexOf(s, sep) == Some(i)
    ensures Join(Split(s, sep)[1..], sep) == s[i + |sep|..]
  {
    var rest := s[i + |sep|..];
    SplitAt(s, sep, i);
    JoinSplit(rest, sep);
    assert ([s[..i]] + Split(rest, sep))[1..] == Split(rest, sep);
  }

  /** A character absent from `a` is first found right after `a`. */
  lemma IndexOfAfter(a: string, c: char, b: string)
    requires c !in a
    ensures IndexOf(a + [c] + b, [c]) == Some(|a|)
  {
    var s := a + [c] + b;
    IndexOfLeftmost(s, [c]);
    assert s[|a|..|a| + 1] == [c];
    assert OccursAt(s, [c], |a|);
    forall k: nat | k < |a|
      ensures !OccursAt(s, [c], k)
    {
      assert s[k..k + 1] == [a[k]];
    }
  }

  /** Splitting on a one-character separator peels off a first piece that does not contain it. */
  lemma SplitAfter(a: string, c: char, b: string)
    requires c !in a
    ensures Split(a + [c] + b, [c]) == [a] + Split(b, [c])
  {
    var s := a + [c] + b;
    IndexOfAfter(a, c, b);
    assert s[..|a|] == a && s[|a| + 1..] == b;
  }

  /** A string without the separator character splits into itself alone. */
  lemma SplitAbsent(a: string, c: char)
    requires c !in a
    ensures Split(a, [c]) == [a]
  {
    forall k: nat
      ensures !OccursAt(a, [c], k)
    {
      if k + 1 <= |a| {
        assert a[k..k + 1] == [a[k]];
      }
    }
  }

  /**
   * Joined lines split back into the same lines, as far as the lines
   * are free of the separator: the lines before the first one that
   * contains it come back unchanged.
   */
  lemma {:induction false} SplitJoinPrefix(lines: seq<string>, c: char, k: nat)
    requires k <= |lines|
    requires forall j :: 0 <= j < k ==> c !in lines[j]
    ensures |Split(Join(lines, [c]), [c])| >= k
    ensures Split(Join(lines, [c]), [c])[..k] == lines[..k]
    decreases k
  {
    if k == 0 {
    } else if |lines| == 1 {
      SplitAbsent(lines[0], c);
    } else {
      var rest := lines[1..];
      assert lines == [lines[0]] + rest;
      SplitJoinCons(lines[0], rest, c);
      SplitJoinPrefix(rest, c, k - 1);
      PrefixCons(lines[0], rest, Split(Join(rest, [c]), [c]), k);
    }
  }

  /** A first line free of the separator splits off on its own. */
  lemma SplitJoinCons(first: string, rest: seq<string>, c: char)
    requires c !in first && |rest| > 0
    ensures Split(Join([first] + rest, [c]), [c]) == [first] + Split(Join(rest, [c]), [c])
  {
    JoinCons(first, rest, [c]);
    SplitAfter(first, c, Join(rest, [c]));
  }

  lemma PrefixCons<T>(x: T, a: seq<T>, b: seq<T>, k: nat)
    requires 0 < k && k - 1 <= |a| && k - 1 <= |b| && a[..k - 1] == b[..k - 1]
    ensures ([x] + a)[..k] == ([x] + b)[..k]
  {
    assert ([x] + a)[..k] == [x] + a[..k - 1];
    assert ([x] + b)[..k] == [x] + b[..k - 1];
  }

  /** Joining a sequence of lines cut in two puts the separator between the halves' joins. */
  lemma {:induction false} JoinAppend(a: seq<string>, b: seq<string>, sep: string)
    requires |a| > 0 && |b| > 0
    ensures Join(a + b, sep) == Join(a, sep) + sep + Join(b, sep)
    decreases |a|
  {
    if |a| == 1 {
      assert (a + b)[1..] == b;
    } else {
      var first, rest := a[0], a[1..];
      calc {
        Join(a + b, sep);
        { assert a + b == [first] + (rest + b); JoinCons(first, rest + b, sep); }
        first + sep + Join(rest + b, sep);
        { JoinAppend(rest, b, sep); }
        first + sep + (Join(rest, sep) + sep + Join(b, sep));
        (first + sep + Join(rest, sep)) + sep + Join(b, sep);
        { assert a == [first] + rest; JoinCons(first, rest, sep); }
        Join(a, sep) + sep + Join(b, sep);
      }
    }
  }

  /** The ECMAScript WhiteSpace and LineTerminator code points: what `\s` matches and `trim` removes. */
  predicate IsWhiteSpace(c: char)
  {
    c == '\t' || c == '\n' || c == '\U{B}' || c == '\U{C}' || c == '\r' || c == ' ' ||
    c == '\U{A0}' || c == '\U{1680}' || ('\U{2000}' <= c <= '\U{200A}') ||
    c == '\U{2028}' || c == '\U{2029}' || c == '\U{202F}' || c == '\U{205F}' ||
    c == '\U{3000}' || c == '\U{FEFF}'
  }

  /** The characters of `s` that are not white space, in order. */
  function NonWhiteSpace(s: string): string
  {
    if s == [] then [] else (if IsWhiteSpace(s[0]) then [] else [s[0]]) + NonWhiteSpace(s[1..])
  }

  lemma NonWhiteSpaceCons(c: char, s: string)
    ensures NonWhiteSpace([c] + s) == NonWhiteSpace([c]) + NonWhiteSpace(s)
  {
    assert ([c] + s)[1..] == s;
  }

  lemma {:induction false} NonWhiteSpaceAppend(a: string, b: string)
    ensures NonWhiteSpace(a + b) == NonWhiteSpace(a) + NonWhiteSpace(b)
    decreases |a|
  {
    if a == [] {
      assert a + b == b;
    } else {
      var c, rest := a[0], a[1..];
      calc {
        NonWhiteSpace(a + b);
        { assert a + b == [c] + (rest + b); }
        NonWhiteSpace([c] + (rest + b));
        { NonWhiteSpaceCons(c, rest + b); }
        NonWhiteSpace([c]) + NonWhiteSpace(rest + b);
        { NonWhiteSpaceAppend(rest, b); }
        NonWhiteSpace([c]) + (NonWhiteSpace(rest) + NonWhiteSpace(b));
        (NonWhiteSpace([c]) + NonWhiteSpace(rest)) + NonWhiteSpace(b);
        { NonWhiteSpaceCons(c, rest); assert a == [c] + rest; }
        NonWhiteSpace(a) + NonWhiteSpace(b);
      }
    }
  }

  /** `s.trimStart()`: the suffix of `s` left after its leading white space. */
  function TrimStart(s: string): (r: string)
    ensures |r| <= |s| && r == s[|s| - |r|..]
    ensures forall i :: 0 <= i < |s| - |r| ==> IsWhiteSpace(s[i])
    ensures r == [] || !IsWhiteSpace(r[0])
    ensures NonWhiteSpace(r) == NonWhiteSpace(s)
  {
    if s != [] && IsWhiteSpace(s[0]) then TrimStart(s[1..]) else s
  }

  /** `s.trimEnd()`: the prefix of `s` left after its trailing white space. */
  function TrimEnd(s: string): (r: string)
    ensures |r| <= |s| && r == s[..|r|]
    ensures forall i :: |r| <= i < |s| ==> IsWhiteSpace(s[i])
    ensures r == [] || !IsWhiteSpace(r[|r| - 1])
    ensures NonWhiteSpace(r) == NonWhiteSpace(s)
  {
    if s != [] && IsWhiteSpace(s[|s| - 1]) then
      var init := s[..|s| - 1];
      NonWhiteSpaceAppend(init, [s[|s| - 1]]);
      assert s == init + [s[|s| - 1]];
      TrimEnd(init)
    else s
  }

  /** `s.trim()`: `s` without its leading and trailing white space. */
  function Trim(s: string): (r: string)
    ensures r == [] || (!IsWhiteSpace(r[0]) && !IsWhiteSpace(r[|r| - 1]))
    ensures NonWhiteSpace(r) == NonWhiteSpace(s)
  {
    TrimEnd(TrimStart(s))
  }

  /**
   * Trimming cuts `s` at `lo` and `lo + |Trim(s)|` and everything cut
   * away is white space.
   */
  lemma TrimBounds(s: string) returns (lo: nat)
    ensures lo + |Trim(s)| <= |s|
    ensures forall i :: 0 <= i < |Trim(s)| ==> Trim(s)[i] == s[lo + i]
    ensures forall i :: 0 <= i < lo ==> IsWhiteSpace(s[i])
    ensures forall i :: lo + |Trim(s)| <= i < |s| ==> IsWhiteSpace(s[i])
  {
    var t := TrimStart(s);
    lo := |s| - |t|;
    var r := TrimEnd(t);
    assert Trim(s) == r;
    assert t == s[lo..];
    forall i | 0 <= i < |r|
      ensures r[i] == s[lo + i]
    {
      assert r[i] == t[i];
    }
    TrimEndShifted(s, lo);
  }

  /** What `trimEnd` cuts from a suffix of `s`, read at the positions of `s`. */
  lemma TrimEndShifted(s: string, lo: nat)
    requires lo <= |s|
    ensures lo + |TrimEnd(s[lo..])| <= |s|
    ensures forall i :: lo + |TrimEnd(s[lo..])| <= i < |s| ==> IsWhiteSpace(s[i])
  {
    var t := s[lo..];
    forall i | lo + |TrimEnd(t)| <= i < |s|
      ensures IsWhiteSpace(s[i])
    {
      assert s[i] == t[i - lo];
    }
  }

  /** The only white space in `s` is single spaces, never two in a row. */
  predicate SingleSpaced(s: string)
  {
    && (forall i :: 0 <= i < |s| && IsWhiteSpace(s[i]) ==> s[i] == ' ')
    && (forall i :: 0 <= i < |s| - 1 ==> !(IsWhiteSpace(s[i]) && IsWhiteSpace(s[i + 1])))
  }

  /** Trimming keeps single spacing. */
  lemma TrimKeepsSingleSpaced(s: string)
    requires SingleSpaced(s)
    ensures SingleSpaced(Trim(s))
  {
    var lo := TrimBounds(s);
  }

  /**
   * `s.replace(/\s+/g, ' ')`, read left to right: each maximal run of
   * white space becomes one space.  The result is no longer than `s` and
   * empty only when `s` is.
   */
  function CollapseWhiteSpace(s: string): (r: string)
    ensures |r| <= |s|
    ensures r == [] <==> s == []
  {
    CollapseRest(s, false)
  }

  /**
   * The collapsed form of the rest `s` of a text; `inRun` says that the
   * text before `s` ended in white space, for which a space has already
   * been written.
   */
  function CollapseRest(s: string, inRun: bool): (r: string)
    ensures |r| <= |s|
    decreases |s|
  {
    if s == [] then []
    else if IsWhiteSpace(s[0]) then
      (if inRun then [] else " ") + CollapseRest(s[1..], true)
    else
      [s[0]] + CollapseRest(s[1..], false)
  }

  /** What collapsing writes for one character, given whether a run was open before it. */
  function CollapseChar(c: char, inRun: bool): string
  {
    if IsWhiteSpace(c) then (if inRun then [] else " ") else [c]
  }

  /** Whether a run of white space is open after `a`, given whether one was open before it. */
  function RunAfter(a: string, inRun: bool): bool
  {
    if a == [] then inRun else IsWhiteSpace(a[|a| - 1])
  }

  lemma CollapseRestCons(c: char, x: string, inRun: bool)
    ensures CollapseRest([c] + x, inRun) == CollapseChar(c, inRun) + CollapseRest(x, IsWhiteSpace(c))
  {
    assert ([c] + x)[1..] == x;
  }

  lemma ConsAppend<T>(c: T, rest: seq<T>, b: seq<T>)
    ensures [c] + rest + b == [c] + (rest + b)
  {
  }

  /**
   * Collapsing works piece by piece: the second piece is collapsed
   * knowing whether the first ended inside a run of white space.
   */
  lemma {:induction false} CollapseRestAppend(a: string, b: string, inRun: bool)
    ensures CollapseRest(a + b, inRun) == CollapseRest(a, inRun) + CollapseRest(b, RunAfter(a, inRun))
    decreases |a|
  {
    if a == [] {
      assert a + b == b;
    } else {
      var c, rest := a[0], a[1..];
      var w := IsWhiteSpace(c);
      assert a == [c] + rest;
      calc {
        CollapseRest(a + b, inRun);
        { ConsAppend(c, rest, b); }
        CollapseRest([c] + (rest + b), inRun);
        { CollapseRestCons(c, rest + b, inRun); }
        CollapseChar(c, inRun) + CollapseRest(rest + b, w);
        { CollapseRestAppend(rest, b, w); }
        CollapseChar(c, inRun) + (CollapseRest(rest, w) + CollapseRest(b, RunAfter(rest, w)));
        { if rest != [] { assert rest[|rest| - 1] == a[|a| - 1]; } }
        CollapseChar(c, inRun) + (CollapseRest(rest, w) + CollapseRest(b, RunAfter(a, inRun)));
        (CollapseChar(c, inRun) + CollapseRest(rest, w)) + CollapseRest(b, RunAfter(a, inRun));
        { CollapseRestCons(c, rest, inRun); }
        CollapseRest(a, inRun) + CollapseRest(b, RunAfter(a, inRun));
      }
    }
  }

  /** After a character that is not white space, it does not matter whether a run was open. */
  lemma CollapseRestWord(s: string, inRun: bool)
    requires s == [] || !IsWhiteSpace(s[0])
    ensures CollapseRest(s, inRun) == CollapseRest(s, false)
  {
  }

  /** Every character of `s` is white space. */
  predicate AllWhiteSpace(s: string)
  {
    forall i :: 0 <= i < |s| ==> IsWhiteSpace(s[i])
  }

  /** No character of `s` is white space. */
  predicate NoWhiteSpace(s: string)
  {
    forall i :: 0 <= i < |s| ==> !IsWhiteSpace(s[i])
  }

  /** Inside an open run, more white space writes nothing. */
  lemma {:induction false} CollapseRestRun(w: string)
    requires AllWhiteSpace(w)
    ensures CollapseRest(w, true) == []
    decreases |w|
  {
    if w != [] {
      assert AllWhiteSpace(w[1..]) by {
        assert forall i :: 0 <= i < |w| - 1 ==> w[1..][i] == w[i + 1];
      }
      CollapseRestRun(w[1..]);
    }
  }

  /** A non-empty run of white space collapses to exactly one space. */
  lemma CollapseRun(w: string)
    requires w != [] && AllWhiteSpace(w)
    ensures CollapseWhiteSpace(w) == " "
  {
    CollapseRestRun(w[1..]) by {
      assert forall i :: 0 <= i < |w| - 1 ==> w[1..][i] == w[i + 1];
    }
  }

  /** A text without white space is left as it is. */
  lemma {:induction false} CollapseWord(u: string)
    requires NoWhiteSpace(u)
    ensures CollapseWhiteSpace(u) == u
    decreases |u|
  {
    if u != [] {
      assert NoWhiteSpace(u[1..]) by {
        assert forall i :: 0 <= i < |u| - 1 ==> u[1..][i] == u[i + 1];
      }
      CollapseWord(u[1..]);
    }
  }

  /**
   * Collapsing two pieces separately gives the collapsed whole, as long
   * as the cut does not fall inside a run of white space.
   */
  lemma CollapseAppend(a: string, b: string)
    requires a == [] || b == [] || !IsWhiteSpace(a[|a| - 1]) || !IsWhiteSpace(b[0])
    ensures CollapseWhiteSpace(a + b) == CollapseWhiteSpace(a) + CollapseWhiteSpace(b)
  {
    CollapseRestAppend(a, b, false);
    if b != [] && IsWhiteSpace(b[0]) {
      assert !RunAfter(a, false);
    } else {
      CollapseRestWord(b, RunAfter(a, false));
    }
  }

  /** One more character in front keeps single spacing, unless it starts a second white space. */
  lemma SingleSpacedCons(c: char, x: string)
    requires SingleSpaced(x)
    requires IsWhiteSpace(c) ==> c == ' ' && (x == [] || !IsWhiteSpace(x[0]))
    ensures SingleSpaced([c] + x)
  {
    assert forall i :: 0 < i <= |x| ==> ([c] + x)[i] == x[i - 1];
  }

  /**
   * The rest of a text, collapsed, holds no white space other than single
   * spaces, none at all at its start when a run was open, and keeps the
   * non-white-space characters, in order.
   */
  lemma {:induction false} CollapseRestShape(s: string, inRun: bool)
    ensures var r := CollapseRest(s, inRun);
      && SingleSpaced(r)
      && (inRun ==> r == [] || !IsWhiteSpace(r[0]))
      && (s != [] && !inRun ==> (IsWhiteSpace(r[0]) <==> IsWhiteSpace(s[0])))
      && NonWhiteSpace(r) == NonWhiteSpace(s)
    decreases |s|
  {
    if s != [] {
      var c, rest := s[0], s[1..];
      var tail := CollapseRest(rest, IsWhiteSpace(c));
      CollapseRestShape(rest, IsWhiteSpace(c));
      assert s == [c] + rest;
      NonWhiteSpaceCons(c, rest);
      if IsWhiteSpace(c) && inRun {
        assert CollapseRest(s, inRun) == tail;
      } else {
        var h := if IsWhiteSpace(c) then ' ' else c;
        assert CollapseRest(s, inRun) == [h] + tail;
        SingleSpacedCons(h, tail);
        NonWhiteSpaceCons(h, tail);
      }
    }
  }

  /**
   * The collapsed text starts with white space exactly when `s` does,
   * holds no white space other than single spaces, and keeps the
   * non-white-space characters of `s`, in order.
   */
  lemma CollapseShape(s: string)
    ensures s != [] ==> (IsWhiteSpace(CollapseWhiteSpace(s)[0]) <==> IsWhiteSpace(s[0]))
    ensures SingleSpaced(CollapseWhiteSpace(s))
    ensures NonWhiteSpace(CollapseWhiteSpace(s)) == NonWhiteSpace(s)
  {
    CollapseRestShape(s, false);
  }

  /** A single-spaced text is its own collapsed form: collapsing twice changes nothing. */
  lemma {:induction false} CollapseRestSingleSpaced(s: string, inRun: bool)
    requires SingleSpaced(s)
    requires inRun ==> s == [] || !IsWhiteSpace(s[0])
    ensures CollapseRest(s, inRun) == s
    decreases |s|
  {
    if s != [] {
      var c, rest := s[0], s[1..];
      assert SingleSpaced(rest) by {
        assert forall i :: 0 <= i < |rest| ==> rest[i] == s[i + 1];
      }
      assert IsWhiteSpace(c) ==> rest == [] || !IsWhiteSpace(rest[0]) by {
        if |s| > 1 {
          assert rest[0] == s[1];
        }
      }
      CollapseRestSingleSpaced(rest, IsWhiteSpace(c));
      assert s == [c] + rest;
      CollapseRestCons(c, rest, inRun);
    }
  }

  lemma CollapseIdempotent(s: string)
    ensures CollapseWhiteSpace(CollapseWhiteSpace(s)) == CollapseWhiteSpace(s)
  {
    CollapseShape(s);
    CollapseRestSingleSpaced(CollapseWhiteSpace(s), false);
  }

  /** A text with no white space at either end is its own trimmed form. */
  lemma TrimTrimmed(s: string)
    requires s == [] || (!IsWhiteSpace(s[0]) && !IsWhiteSpace(s[|s| - 1]))
    ensures Trim(s) == s
  {
  }
}
