/**
  An independent, character-by-character description of what the blank-line
  post-pass does: reading the HTML left to right, every newline that directly
  follows one of the listed closing tags is written twice; every other
  character is copied once. `Spaced` is this reference definition; `Breaks`
  counts the doubled newlines; `Collapse` undoes the doubling.
 */
module Spacing {
  import opened GoStrings

  /** `s` ends with `suffix` (Go's strings.HasSuffix). */
  predicate EndsWith(s: string, suffix: string) {
    |suffix| <= |s| && s[|s| - |suffix|..] == suffix
  }

  /** `s` ends with at least one of `tags`. */
  predicate EndsWithAny(s: string, tags: seq<string>) {
    exists e :: e in tags && EndsWith(s, e)
  }

  /**
    The shape shared by every listed closing tag: it begins with '<', holds
    no other '<' and no newline. Two such tags can only end the same text if
    they are equal.
   */
  predicate ClosingTag(e: string) {
    && |e| > 0
    && e[0] == '<'
    && (forall k :: 1 <= k < |e| ==> e[k] != '<')
    && '\n' !in e
  }

  /** A tag list the post-pass can use: closing tags, no tag listed twice. */
  predicate WellFormedTags(tags: seq<string>) {
    && (forall e :: e in tags ==> ClosingTag(e))
    && (forall i, j :: 0 <= i < j < |tags| ==> tags[i] != tags[j])
  }

  /** A newline read right after a listed tag is doubled. */
  predicate BreakAt(before: string, c: char, tags: seq<string>) {
    c == '\n' && EndsWithAny(before, tags)
  }

  /** What the post-pass writes for character `c`, given the text before it. */
  function Emit(before: string, c: char, tags: seq<string>): string {
    if BreakAt(before, c, tags) then "\n\n" else [c]
  }

  /** Number of newlines in `s` that directly follow a listed tag. */
  function Breaks(s: string, tags: seq<string>): nat
    decreases |s|
  {
    if s == [] then 0
    else
      var n := |s| - 1;
      Breaks(s[..n], tags) + (if BreakAt(s[..n], s[n], tags) then 1 else 0)
  }

  /**
    The reference definition of the post-pass over `tags`: each character is
    copied, and each newline that directly follows a listed tag is doubled.
    The output is longer than the input by exactly the number of such newlines.
   */
  function Spaced(s: string, tags: seq<string>): (r: string)
    ensures |r| == |s| + Breaks(s, tags)
    decreases |s|
  {
    if s == [] then []
    else
      var n := |s| - 1;
      Spaced(s[..n], tags) + Emit(s[..n], s[n], tags)
  }

  /**
    Undoes the post-pass (`Collapse(Spaced(s, tags), tags) == s`): drops every
    newline that directly follows a listed tag and a newline.
   */
  function Collapse(t: string, tags: seq<string>): string
    decreases |t|
  {
    if t == [] then []
    else
      var n := |t| - 1;
      if n >= 1 && t[n] == '\n' && t[n - 1] == '\n' && EndsWithAny(t[..n - 1], tags)
      then Collapse(t[..n], tags)
      else Collapse(t[..n], tags) + [t[n]]
  }

  /** Index in the output at which input character `i` is written. */
  function Image(s: string, tags: seq<string>, i: nat): nat
    requires i <= |s|
  {
    i + Breaks(s[..i], tags)
  }

  /** Sum, over the tags, of the occurrences of "tag\n" in `s`. */
  function MatchTotal(s: string, tags: seq<string>): nat
    decreases |tags|
  {
    if tags == [] then 0
    else
      var n := |tags| - 1;
      MatchTotal(s, tags[..n]) + Count(s, tags[n] + "\n")
  }

  // ---------------------------------------------------------------------
  // Small facts about suffixes and the shape of tags
  // ---------------------------------------------------------------------

  /** How EndsWith behaves when one character is appended. */
  lemma EndsWithSnoc(x: string, c: char, w: string)
    requires |w| > 0
    ensures EndsWith(x + [c], w) <==> w[|w| - 1] == c && EndsWith(x, w[..|w| - 1])
  {
    var y := x + [c];
    if EndsWith(y, w) {
      assert y[|y| - |w|..] == x[|x| - (|w| - 1)..] + [c];
      assert w == w[..|w| - 1] + [w[|w| - 1]];
    }
    if w[|w| - 1] == c && EndsWith(x, w[..|w| - 1]) {
      assert w == w[..|w| - 1] + [c];
      assert y[|y| - |w|..] == x[|x| - (|w| - 1)..] + [c];
    }
  }

  /** Two closing tags that end the same text are the same tag. */
  lemma ClosingTagsUnique(s: string, a: string, b: string)
    requires ClosingTag(a) && ClosingTag(b)
    requires EndsWith(s, a) && EndsWith(s, b)
    ensures a == b
  {
  }

  /** Text that ends with one closing tag does not end with a different one. */
  lemma OtherTagExcluded(s: string, a: string, f: string)
    requires ClosingTag(a) && ClosingTag(f) && a != f && EndsWith(s, a)
    ensures !EndsWith(s, f)
  {
    if EndsWith(s, f) {
      ClosingTagsUnique(s, a, f);
    }
  }

  /** The parts of a well-formed list extended by one tag. */
  lemma WellFormedSnoc(tags: seq<string>, f: string)
    requires WellFormedTags(tags + [f])
    ensures WellFormedTags(tags) && ClosingTag(f) && f !in tags
  {
    var all := tags + [f];
    assert all[|tags|] == f;
    forall i, j | 0 <= i < j < |tags| ensures tags[i] != tags[j] {
      assert all[i] == tags[i] && all[j] == tags[j];
    }
    forall i | 0 <= i < |tags| ensures tags[i] != f {
      assert all[i] == tags[i];
    }
  }

  /** Text ending with a closing tag does not end with a newline. */
  lemma TagEndNotNewline(s: string, e: string)
    requires ClosingTag(e) && EndsWith(s, e)
    ensures |s| > 0 && s[|s| - 1] != '\n'
  {
    assert s[|s| - 1] == e[|e| - 1];
  }

  // ---------------------------------------------------------------------
  // Basic facts about Spaced and Breaks
  // ---------------------------------------------------------------------

  /** Unfolding Spaced and Breaks on a text extended by one character. */
  lemma SpacedSnoc(x: string, c: char, tags: seq<string>)
    ensures Spaced(x + [c], tags) == Spaced(x, tags) + Emit(x, c, tags)
    ensures Breaks(x + [c], tags) == Breaks(x, tags) + (if BreakAt(x, c, tags) then 1 else 0)
  {
    assert (x + [c])[..|x|] == x;
  }

  /** Text with no newline is copied through unchanged. */
  lemma {:induction false} SpacedNoNewline(x: string, w: string, tags: seq<string>)
    requires '\n' !in w
    ensures Spaced(x + w, tags) == Spaced(x, tags) + w
    ensures Breaks(x + w, tags) == Breaks(x, tags)
    decreases |w|
  {
    if w == [] {
      assert x + w == x;
    } else {
      var v, l := w[..|w| - 1], w[|w| - 1];
      assert '\n' !in v && l != '\n' by {
        assert w == v + [l];
      }
      SpacedNoNewline(x, v, tags);
      var xv := x + v;
      assert x + w == xv + [l];
      SpacedSnoc(xv, l, tags);
      assert Spaced(x, tags) + w == (Spaced(x, tags) + v) + [l];
    }
  }

  /** The output for a prefix of the input is a prefix of the output. */
  lemma {:induction false} SpacedPrefix(x: string, y: string, tags: seq<string>)
    ensures Spaced(x, tags) <= Spaced(x + y, tags)
    ensures Breaks(x, tags) <= Breaks(x + y, tags)
    decreases |y|
  {
    if y != [] {
      var v := y[..|y| - 1];
      SpacedPrefix(x, v, tags);
      assert x + y == (x + v) + [y[|y| - 1]];
      SpacedSnoc(x + v, y[|y| - 1], tags);
      assert Spaced(x + v, tags) <= Spaced(x + y, tags);
    } else {
      assert x + y == x;
    }
  }

  /**
    The post-pass never adds or removes a suffix that holds no newline: the
    output ends with such a `w` exactly when the input does.
   */
  lemma {:induction false} SuffixPreserved(s: string, tags: seq<string>, w: string)
    requires '\n' !in w
    ensures EndsWith(Spaced(s, tags), w) <==> EndsWith(s, w)
    decreases |s|
  {
    if s != [] && w != [] {
      var n := |s| - 1;
      var x, c := s[..n], s[n];
      assert s == x + [c];
      SpacedSnoc(x, c, tags);
      var t := Spaced(x, tags);
      var v := w[..|w| - 1];
      assert '\n' !in v by {
        forall k | 0 <= k < |v| ensures v[k] != '\n' { assert v[k] == w[k]; }
      }
      SuffixPreserved(x, tags, v);
      EndsWithSnoc(x, c, w);
      if BreakAt(x, c, tags) {
        assert Spaced(s, tags) == (t + "\n") + ['\n'];
        EndsWithSnoc(t + "\n", '\n', w);
        assert w[|w| - 1] in w;
      } else {
        EndsWithSnoc(t, c, w);
      }
    }
  }

  /** Same as SuffixPreserved, for "ends with one of the tags". */
  lemma AnyTagSuffixPreserved(s: string, tags: seq<string>, listed: seq<string>)
    requires forall e :: e in listed ==> ClosingTag(e)
    ensures EndsWithAny(Spaced(s, tags), listed) <==> EndsWithAny(s, listed)
  {
    if EndsWithAny(s, listed) {
      var e :| e in listed && EndsWith(s, e);
      SuffixPreserved(s, tags, e);
    }
    if EndsWithAny(Spaced(s, tags), listed) {
      var e :| e in listed && EndsWith(Spaced(s, tags), e);
      SuffixPreserved(s, tags, e);
    }
  }

  /**
    The output never ends with a listed tag followed by a single newline:
    such a newline is always doubled.
   */
  lemma NoUndoubledBreakAtEnd(s: string, tags: seq<string>, e: string)
    requires e in tags && ClosingTag(e)
    ensures !EndsWith(Spaced(s, tags), e + "\n")
  {
    if s != [] {
      var n := |s| - 1;
      var x, c := s[..n], s[n];
      assert s == x + [c];
      SpacedSnoc(x, c, tags);
      var t := Spaced(x, tags);
      EndsWithSnoc(Spaced(s, tags)[..|Spaced(s, tags)| - 1], Spaced(s, tags)[|Spaced(s, tags)| - 1], e + "\n");
      assert (e + "\n")[..|e|] == e;
      if BreakAt(x, c, tags) {
        assert Spaced(s, tags) == (t + "\n") + ['\n'];
        if EndsWith(t + "\n", e) {
          TagEndNotNewline(t + "\n", e);
        }
      } else {
        assert Spaced(s, tags) == t + [c];
        SuffixPreserved(x, tags, e);
      }
    }
  }

  // ---------------------------------------------------------------------
  // One ReplaceAll pass is Spaced over a single tag
  // ---------------------------------------------------------------------

  /**
    No occurrence of "e\n" straddles the boundary between `ctx` and `s`: the
    context ends with a non-empty beginning of `e` only when `s` does not
    continue it with the rest of `e` and a newline.
   */
  ghost predicate NoStraddle(ctx: string, s: string, e: string) {
    forall k :: 1 <= k <= |e| && EndsWith(ctx, e[..k]) ==> !(e[k..] + "\n" <= s)
  }

  /** After a whole "e\n" nothing straddles: the context now ends with a newline. */
  lemma NoStraddleAfterMatch(ctx: string, rest: string, e: string)
    requires '\n' !in e
    ensures NoStraddle(ctx + e + "\n", rest, e)
  {
    var z := ctx + e + "\n";
    forall k | 1 <= k <= |e| ensures !EndsWith(z, e[..k]) {
      assert e[k - 1] in e;
      assert e[..k][k - 1] == e[k - 1];
    }
  }

  /**
    Where `s` does not begin with "e\n", its first character is copied once,
    and nothing straddles the boundary one character further on.
   */
  lemma NoStraddleStep(ctx: string, s: string, e: string)
    requires '\n' !in e && s != []
    requires NoStraddle(ctx, s, e) && !(e + "\n" <= s)
    ensures !BreakAt(ctx, s[0], [e])
    ensures NoStraddle(ctx + [s[0]], s[1..], e)
  {
    var c, rest := s[0], s[1..];
    assert s == [c] + rest;
    if |e| == 0 {
      assert e + "\n" == "\n";
    } else {
      assert e[..|e|] == e && e[|e|..] + "\n" == "\n";
    }
    forall k | 1 <= k <= |e| && EndsWith(ctx + [c], e[..k])
      ensures !(e[k..] + "\n" <= rest)
    {
      EndsWithSnoc(ctx, c, e[..k]);
      assert e[..k][k - 1] == e[k - 1];
      if k == 1 {
        assert e + "\n" == [e[0]] + (e[1..] + "\n");
      } else {
        assert e[..k][..k - 1] == e[..k - 1];
        assert e[k - 1..] + "\n" == [c] + (e[k..] + "\n");
      }
    }
  }

  /** A whole "e\n" read after any context comes out as "e\n\n". */
  lemma SpacedMatch(ctx: string, e: string)
    requires '\n' !in e
    ensures Spaced(ctx + e + "\n", [e]) == Spaced(ctx, [e]) + e + "\n\n"
  {
    SpacedNoNewline(ctx, e, [e]);
    SpacedSnoc(ctx + e, '\n', [e]);
    assert EndsWith(ctx + e, e);
    assert Emit(ctx + e, '\n', [e]) == "\n\n";
    assert ctx + e + "\n" == (ctx + e) + ['\n'];
  }

  /** How a text that begins with `p` splits after a context. */
  lemma SplitAfterPrefix(ctx: string, s: string, p: string)
    requires p <= s
    ensures ctx + s == ctx + p + s[|p|..]
  {
    assert s == p + s[|p|..];
  }

  /** Concatenation regroups. */
  lemma Regroup(a: string, b: string, c: string)
    ensures (a + b) + c == a + (b + c)
  {
  }

  /** The match step of ReplaceAll agrees with the reference definition. */
  lemma ReplaceAllMatchStep(ctx: string, s: string, e: string)
    requires '\n' !in e && e + "\n" <= s
    requires Spaced(ctx + e + "\n" + s[|e| + 1..], [e])
               == Spaced(ctx + e + "\n", [e]) + ReplaceAll(s[|e| + 1..], e + "\n", e + "\n\n")
    ensures Spaced(ctx + s, [e]) == Spaced(ctx, [e]) + ReplaceAll(s, e + "\n", e + "\n\n")
  {
    SplitAfterPrefix(ctx, s, e + "\n");
    Regroup(ctx, e, "\n");
    SpacedMatch(ctx, e);
    Regroup(Spaced(ctx, [e]), e, "\n\n");
    assert ReplaceAll(s, e + "\n", e + "\n\n") == e + "\n\n" + ReplaceAll(s[|e| + 1..], e + "\n", e + "\n\n");
    Regroup(Spaced(ctx, [e]), e + "\n\n", ReplaceAll(s[|e| + 1..], e + "\n", e + "\n\n"));
  }

  /** The copy step of ReplaceAll agrees with the reference definition. */
  lemma ReplaceAllCopyStep(ctx: string, s: string, e: string)
    requires s != [] && !(e + "\n" <= s) && !BreakAt(ctx, s[0], [e])
    requires Spaced(ctx + [s[0]] + s[1..], [e])
               == Spaced(ctx + [s[0]], [e]) + ReplaceAll(s[1..], e + "\n", e + "\n\n")
    ensures Spaced(ctx + s, [e]) == Spaced(ctx, [e]) + ReplaceAll(s, e + "\n", e + "\n\n")
  {
    SplitAfterPrefix(ctx, s, [s[0]]);
    SpacedSnoc(ctx, s[0], [e]);
    Regroup(Spaced(ctx, [e]), [s[0]], ReplaceAll(s[1..], e + "\n", e + "\n\n"));
  }

  /**
    Replacing every "e\n" by "e\n\n" in `s`, read after `ctx`, writes what
    the reference definition writes for `s` after `ctx`.
   */
  lemma {:induction false} ReplaceAllIsSpacedAfter(ctx: string, s: string, e: string)
    requires '\n' !in e
    requires NoStraddle(ctx, s, e)
    ensures Spaced(ctx + s, [e]) == Spaced(ctx, [e]) + ReplaceAll(s, e + "\n", e + "\n\n")
    decreases |s|
  {
    if s == [] {
      assert ctx + s == ctx;
    } else if e + "\n" <= s {
      NoStraddleAfterMatch(ctx, s[|e| + 1..], e);
      ReplaceAllIsSpacedAfter(ctx + e + "\n", s[|e| + 1..], e);
      ReplaceAllMatchStep(ctx, s, e);
    } else {
      NoStraddleStep(ctx, s, e);
      ReplaceAllIsSpacedAfter(ctx + [s[0]], s[1..], e);
      ReplaceAllCopyStep(ctx, s, e);
    }
  }

  /** One pass of ReplaceAll(s, e + "\n", e + "\n\n") doubles exactly the newlines after `e`. */
  lemma ReplaceAllIsSpaced(s: string, e: string)
    requires '\n' !in e
    ensures ReplaceAll(s, e + "\n", e + "\n\n") == Spaced(s, [e])
  {
    assert [] + s == s;
    ReplaceAllIsSpacedAfter([], s, e);
  }

  /** Over a single tag, Breaks counts the occurrences of "tag\n". */
  lemma BreaksSingleIsCount(s: string, e: string)
    requires '\n' !in e
    ensures Breaks(s, [e]) == Count(s, e + "\n")
  {
    ReplaceAllIsSpaced(s, e);
  }

  // ---------------------------------------------------------------------
  // Passes over several tags compose
  // ---------------------------------------------------------------------

  /**
    Running the reference pass for `tags` and then for one further tag `f`
    gives the reference pass for the extended list: the second pass neither
    sees the newlines inserted by the first nor misses any of its own.
   */
  lemma {:induction false} SpacedCompose(s: string, tags: seq<string>, f: string)
    requires WellFormedTags(tags + [f])
    ensures Spaced(Spaced(s, tags), [f]) == Spaced(s, tags + [f])
    decreases |s|
  {
    WellFormedSnoc(tags, f);
    if s != [] {
      var n := |s| - 1;
      var x, c := s[..n], s[n];
      assert s == x + [c];
      SpacedCompose(x, tags, f);
      if BreakAt(x, c, tags) {
        ComposeBreakStep(x, c, tags, f);
      } else {
        ComposeCopyStep(x, c, tags, f);
      }
    }
  }

  /** SpacedCompose, one character further, when the first pass doubles that character. */
  lemma ComposeBreakStep(x: string, c: char, tags: seq<string>, f: string)
    requires WellFormedTags(tags + [f]) && WellFormedTags(tags) && ClosingTag(f)
    requires BreakAt(x, c, tags)
    requires Spaced(Spaced(x, tags), [f]) == Spaced(x, tags + [f])
    ensures Spaced(Spaced(x + [c], tags), [f]) == Spaced(x + [c], tags + [f])
  {
    var a :| a in tags && EndsWith(x, a);
    WellFormedSnoc(tags, f);
    OtherTagExcluded(x, a, f);
    assert a in tags + [f];
    assert BreakAt(x, c, tags + [f]);
    var t := Spaced(x, tags);
    SpacedSnoc(x, c, tags);
    SpacedSnoc(x, c, tags + [f]);
    assert Spaced(x + [c], tags) == t + "\n\n";
    SuffixPreserved(x, tags, f);
    SpacedTwoNewlines(t, f);
  }

  /** Two newlines after text that does not end with `f` pass a single-tag pass unchanged. */
  lemma SpacedTwoNewlines(t: string, f: string)
    requires ClosingTag(f) && !EndsWith(t, f)
    ensures Spaced(t + "\n\n", [f]) == Spaced(t, [f]) + "\n\n"
  {
    var u := t + "\n";
    EndsWithAnySingle(t, f);
    SpacedSnoc(t, '\n', [f]);
    assert Spaced(u, [f]) == Spaced(t, [f]) + "\n";
    assert !EndsWith(u, f) by {
      if EndsWith(u, f) {
        TagEndNotNewline(u, f);
      }
    }
    EndsWithAnySingle(u, f);
    SpacedSnoc(u, '\n', [f]);
    assert t + "\n\n" == u + ['\n'];
    Regroup(Spaced(t, [f]), "\n", "\n");
  }

  /** Ending with one of a single tag is ending with that tag. */
  lemma EndsWithAnySingle(s: string, f: string)
    ensures EndsWithAny(s, [f]) <==> EndsWith(s, f)
  {
    if EndsWith(s, f) {
      assert f in [f];
    }
  }

  /** SpacedCompose, one character further, when the first pass copies that character. */
  lemma ComposeCopyStep(x: string, c: char, tags: seq<string>, f: string)
    requires WellFormedTags(tags + [f]) && WellFormedTags(tags) && ClosingTag(f)
    requires !BreakAt(x, c, tags)
    requires Spaced(Spaced(x, tags), [f]) == Spaced(x, tags + [f])
    ensures Spaced(Spaced(x + [c], tags), [f]) == Spaced(x + [c], tags + [f])
  {
    SpacedSnoc(x, c, tags);
    SpacedSnoc(x, c, tags + [f]);
    var t := Spaced(x, tags);
    SuffixPreserved(x, tags, f);
    assert EndsWithAny(x, tags + [f]) <==> EndsWithAny(x, tags) || EndsWith(x, f);
    assert Spaced(x + [c], tags) == t + [c];
    SpacedSnoc(t, c, [f]);
  }

  /** With well-formed tags, the breaks of a list are the sum of the breaks of its tags. */
  lemma {:induction false} BreaksSplit(s: string, tags: seq<string>, f: string)
    requires WellFormedTags(tags + [f])
    ensures Breaks(s, tags + [f]) == Breaks(s, tags) + Breaks(s, [f])
    decreases |s|
  {
    WellFormedSnoc(tags, f);
    if s != [] {
      var n := |s| - 1;
      var x, c := s[..n], s[n];
      assert s == x + [c];
      BreaksSplit(x, tags, f);
      SpacedSnoc(x, c, tags);
      SpacedSnoc(x, c, [f]);
      SpacedSnoc(x, c, tags + [f]);
      assert EndsWithAny(x, tags + [f]) <==> EndsWithAny(x, tags) || EndsWith(x, f);
      if EndsWithAny(x, tags) && EndsWith(x, f) {
        var a :| a in tags && EndsWith(x, a);
        ClosingTagsUnique(x, a, f);
      }
    }
  }

  /** With no tags nothing is doubled. */
  lemma {:induction false} BreaksNone(s: string)
    ensures Breaks(s, []) == 0
    decreases |s|
  {
    if s != [] {
      BreaksNone(s[..|s| - 1]);
    }
  }

  /** With well-formed tags, the doubled newlines are the occurrences of "tag\n", summed over the tags. */
  lemma {:induction false} BreaksIsMatchTotal(s: string, tags: seq<string>)
    requires WellFormedTags(tags)
    ensures Breaks(s, tags) == MatchTotal(s, tags)
    decreases |tags|
  {
    if tags == [] {
      BreaksNone(s);
    } else {
      var n := |tags| - 1;
      var init, f := tags[..n], tags[n];
      assert tags == init + [f];
      WellFormedSnoc(init, f);
      BreaksIsMatchTotal(s, init);
      BreaksSplit(s, init, f);
      BreaksSingleIsCount(s, f);
    }
  }

  /** MatchTotal is zero exactly when no "tag\n" occurs in the text. */
  lemma {:induction false} MatchTotalZeroIff(s: string, tags: seq<string>)
    ensures MatchTotal(s, tags) == 0 <==> forall e :: e in tags ==> !Contains(s, e + "\n")
    decreases |tags|
  {
    if tags != [] {
      var n := |tags| - 1;
      var init, f := tags[..n], tags[n];
      assert tags == init + [f];
      MatchTotalZeroIff(s, init);
      CountZeroIffAbsent(s, f + "\n");
    }
  }

  /** A later pass over a closing tag finds in the output exactly the breaks it finds in the input. */
  lemma {:induction false} BreaksPreserved(s: string, tags: seq<string>, f: string)
    requires ClosingTag(f)
    ensures Breaks(Spaced(s, tags), [f]) == Breaks(s, [f])
    decreases |s|
  {
    if s != [] {
      var n := |s| - 1;
      var x, c := s[..n], s[n];
      assert s == x + [c];
      BreaksPreserved(x, tags, f);
      SpacedSnoc(x, c, tags);
      SpacedSnoc(x, c, [f]);
      var t := Spaced(x, tags);
      SuffixPreserved(x, tags, f);
      if BreakAt(x, c, tags) {
        assert Spaced(s, tags) == (t + "\n") + ['\n'];
        SpacedSnoc(t + "\n", '\n', [f]);
        SpacedSnoc(t, '\n', [f]);
        if EndsWith(t + "\n", f) {
          TagEndNotNewline(t + "\n", f);
        }
      } else {
        assert Spaced(s, tags) == t + [c];
        SpacedSnoc(t, c, [f]);
      }
    }
  }

  // ---------------------------------------------------------------------
  // What the reference pass keeps and what it adds
  // ---------------------------------------------------------------------

  /** After text ending with a listed tag, Collapse turns "\n\n" back into "\n". */
  lemma CollapseAfterTag(t: string, tags: seq<string>)
    requires forall e :: e in tags ==> ClosingTag(e)
    requires EndsWithAny(t, tags)
    ensures Collapse(t + "\n\n", tags) == Collapse(t, tags) + "\n"
  {
    var u := t + "\n\n";
    var e :| e in tags && EndsWith(t, e);
    TagEndNotNewline(t, e);
    assert u[..|u| - 1] == t + "\n" && u[..|u| - 2] == t;
    assert (t + "\n")[..|t|] == t;
  }

  /** After text that does not end with a listed tag and a newline, Collapse keeps the next character. */
  lemma CollapseAppend(t: string, c: char, tags: seq<string>)
    requires forall e :: e in tags ==> !EndsWith(t, e + "\n")
    ensures Collapse(t + [c], tags) == Collapse(t, tags) + [c]
  {
    var u := t + [c];
    assert u[..|u| - 1] == t;
    if t != [] {
      var m := |t| - 1;
      assert u[..|u| - 2] == t[..m];
      assert t == t[..m] + [t[m]];
      forall e | e in tags ensures !(t[m] == '\n' && EndsWith(t[..m], e)) {
        EndsWithSnoc(t[..m], t[m], e + "\n");
        assert (e + "\n")[..|e|] == e;
      }
    }
  }

  /** A doubled newline is collapsed back to one. */
  lemma CollapseBreak(s: string, c: char, tags: seq<string>)
    requires forall e :: e in tags ==> ClosingTag(e)
    requires BreakAt(s, c, tags)
    ensures Collapse(Spaced(s, tags) + "\n\n", tags) == Collapse(Spaced(s, tags), tags) + "\n"
  {
    AnyTagSuffixPreserved(s, tags, tags);
    CollapseAfterTag(Spaced(s, tags), tags);
  }

  /** A character appended to the output of the pass is kept by Collapse. */
  lemma CollapseKeep(s: string, c: char, tags: seq<string>)
    requires forall e :: e in tags ==> ClosingTag(e)
    ensures Collapse(Spaced(s, tags) + [c], tags) == Collapse(Spaced(s, tags), tags) + [c]
  {
    forall e | e in tags ensures !EndsWith(Spaced(s, tags), e + "\n") {
      NoUndoubledBreakAtEnd(s, tags, e);
    }
    CollapseAppend(Spaced(s, tags), c, tags);
  }

  /** Removing the doubled newlines gives back the input. */
  lemma {:induction false} CollapseSpaced(s: string, tags: seq<string>)
    requires forall e :: e in tags ==> ClosingTag(e)
    ensures Collapse(Spaced(s, tags), tags) == s
    decreases |s|
  {
    if s != [] {
      var n := |s| - 1;
      var x, c := s[..n], s[n];
      assert s == x + [c];
      CollapseSpaced(x, tags);
      SpacedSnoc(x, c, tags);
      if BreakAt(x, c, tags) {
        CollapseBreak(x, c, tags);
      } else {
        CollapseKeep(x, c, tags);
      }
    }
  }

  /**
    The only characters the pass adds are newlines: every other character
    occurs as often in the output as in the input, and the newline count
    grows by the number of breaks.
   */
  lemma {:induction false} SpacedOnlyAddsNewlines(s: string, tags: seq<string>)
    ensures forall ch :: multiset(Spaced(s, tags))[ch]
                           == multiset(s)[ch] + (if ch == '\n' then Breaks(s, tags) else 0)
    decreases |s|
  {
    if s != [] {
      var n := |s| - 1;
      var x, c := s[..n], s[n];
      assert s == x + [c];
      SpacedOnlyAddsNewlines(x, tags);
      SpacedSnoc(x, c, tags);
      assert multiset(s) == multiset(x) + multiset{c};
      assert multiset(Spaced(s, tags)) == multiset(Spaced(x, tags)) + multiset(Emit(x, c, tags));
    }
  }

  /**
    Where each input character lands: input character `i` is written at
    `Image(i)`; when it is a newline after a listed tag a second newline
    follows it, otherwise the next input character comes right after. So the
    input appears in the output in order, and each extra character is a
    newline directly after a listed tag and its newline.
   */
  lemma SpacedAt(s: string, tags: seq<string>, i: nat)
    requires i < |s|
    ensures Image(s, tags, i) < |Spaced(s, tags)|
    ensures Spaced(s, tags)[Image(s, tags, i)] == s[i]
    ensures Image(s, tags, i + 1) <= |Spaced(s, tags)|
    ensures BreakAt(s[..i], s[i], tags) ==>
              Image(s, tags, i + 1) == Image(s, tags, i) + 2
              && Spaced(s, tags)[Image(s, tags, i) + 1] == '\n'
    ensures !BreakAt(s[..i], s[i], tags) ==> Image(s, tags, i + 1) == Image(s, tags, i) + 1
  {
    var x, c := s[..i], s[i];
    assert s[..i + 1] == x + [c];
    SpacedSnoc(x, c, tags);
    assert s == s[..i + 1] + s[i + 1..];
    SpacedPrefix(s[..i + 1], s[i + 1..], tags);
  }

  /** Input positions keep their order in the output, and the last one closes the output. */
  lemma ImageMonotone(s: string, tags: seq<string>, i: nat, j: nat)
    requires i < j <= |s|
    ensures Image(s, tags, i) < Image(s, tags, j)
    ensures Image(s, tags, |s|) == |Spaced(s, tags)|
  {
    assert s[..j] == s[..i] + s[i..j];
    SpacedPrefix(s[..i], s[i..j], tags);
    assert s[..|s|] == s;
  }

  /** The post-pass leaves text unchanged exactly when nothing is doubled. */
  lemma {:induction false} SpacedIdentityIff(s: string, tags: seq<string>)
    ensures Spaced(s, tags) == s <==> Breaks(s, tags) == 0
    decreases |s|
  {
    if s != [] && Breaks(s, tags) == 0 {
      var n := |s| - 1;
      var x, c := s[..n], s[n];
      assert s == x + [c];
      SpacedSnoc(x, c, tags);
      SpacedIdentityIff(x, tags);
    }
  }

  /** A listed tag followed by a newline comes out followed by a blank line. */
  lemma ListedTagDoubled(x: string, e: string, tags: seq<string>)
    requires e in tags && ClosingTag(e)
    ensures Spaced(x + e + "\n", tags) == Spaced(x, tags) + e + "\n\n"
  {
    SpacedNoNewline(x, e, tags);
    SpacedSnoc(x + e, '\n', tags);
    assert EndsWith(x + e, e);
  }

  /** Two newline-free blocks, each closed by a listed tag and a newline, get a blank line after each. */
  lemma TwoBlocksSpaced(a: string, b: string, e: string, tags: seq<string>)
    requires '\n' !in a && '\n' !in b
    requires e in tags && ClosingTag(e)
    ensures Spaced(a + e + "\n" + b + e + "\n", tags) == a + e + "\n\n" + b + e + "\n\n"
  {
    SpacedNoNewline([], a, tags);
    assert [] + a == a;
    ListedTagDoubled(a, e, tags);
    SpacedNoNewline(a + e + "\n", b, tags);
    ListedTagDoubled(a + e + "\n" + b, e, tags);
  }

  /** Whatever follows, the blank line after a listed tag and its newline stays in the output. */
  lemma TagNewlineDoubled(x: string, e: string, y: string, tags: seq<string>)
    requires e in tags && ClosingTag(e)
    ensures Spaced(x, tags) + e + "\n\n" <= Spaced(x + e + "\n" + y, tags)
  {
    ListedTagDoubled(x, e, tags);
    SpacedPrefix(x + e + "\n", y, tags);
  }

  /** Right after a closing tag and its newline, nothing ends with a closing tag. */
  lemma NoTagBeforeNewlineEnd(z: string, tags: seq<string>)
    requires forall e :: e in tags ==> ClosingTag(e)
    requires |z| > 0 && z[|z| - 1] == '\n'
    ensures !EndsWithAny(z, tags)
  {
    forall e | e in tags ensures !EndsWith(z, e) {
      assert e[|e| - 1] in e;
    }
  }

  /** An unlisted closing tag and its newline come out as they went in. */
  lemma UnlistedTagCopied(x: string, w: string, tags: seq<string>)
    requires forall e :: e in tags ==> ClosingTag(e)
    requires ClosingTag(w) && w !in tags
    ensures Spaced(x + w + "\n", tags) == Spaced(x, tags) + w + "\n"
  {
    SpacedNoNewline(x, w, tags);
    SpacedSnoc(x + w, '\n', tags);
    forall e | e in tags ensures !EndsWith(x + w, e) {
      assert EndsWith(x + w, w);
      if EndsWith(x + w, e) {
        ClosingTagsUnique(x + w, e, w);
      }
    }
  }

  /** The character right after a newline is written once: the pass inserts nothing before it. */
  lemma CopiedAfterNewline(z: string, c: char, tags: seq<string>)
    requires forall e :: e in tags ==> ClosingTag(e)
    requires |z| > 0 && z[|z| - 1] == '\n'
    ensures Spaced(z + [c], tags) == Spaced(z, tags) + [c]
  {
    SpacedSnoc(z, c, tags);
    NoTagBeforeNewlineEnd(z, tags);
  }

  /**
    A closing tag that is not listed, with its newline, is copied unchanged,
    and the character after it follows directly, written once.
   */
  lemma UnlistedTagUnchanged(x: string, w: string, y: string, tags: seq<string>)
    requires forall e :: e in tags ==> ClosingTag(e)
    requires ClosingTag(w) && w !in tags
    ensures Spaced(x, tags) + w + "\n" <= Spaced(x + w + "\n" + y, tags)
    ensures y != [] ==> Spaced(x, tags) + w + "\n" + [y[0]] <= Spaced(x + w + "\n" + y, tags)
  {
    var z := x + w + "\n";
    UnlistedTagCopied(x, w, tags);
    SpacedPrefix(z, y, tags);
    if y != [] {
      CopiedAfterNewline(z, y[0], tags);
      SnocTail(z, y);
      SpacedPrefix(z + [y[0]], y[1..], tags);
    }
  }

  /** Splitting off the first character of `y`. */
  lemma SnocTail(z: string, y: string)
    requires y != []
    ensures (z + [y[0]]) + y[1..] == z + y
  {
  }

  /** A listed tag followed by anything but a newline, or by nothing, is copied unchanged. */
  lemma TagWithoutNewlineUnchanged(x: string, e: string, c: char, y: string, tags: seq<string>)
    requires ClosingTag(e) && c != '\n'
    ensures Spaced(x + e, tags) == Spaced(x, tags) + e
    ensures Spaced(x, tags) + e + [c] <= Spaced(x + e + [c] + y, tags)
  {
    SpacedNoNewline(x, e, tags);
    SpacedSnoc(x + e, c, tags);
    SpacedPrefix(x + e + [c], y, tags);
  }
}
