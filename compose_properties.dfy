/**
 * Properties of compose_from_hfs_nfd (src/lib.rs), stated on the reference
 * state machine of module HfsNfd: the invariant kept between two input
 * characters, the fallback after a tentative match, the behaviour outside
 * the table, and the round trips through the decomposer.
 */
module ComposeProperties {
  import opened Options
  import opened ReverseTree
  import opened Hangul
  import opened HfsNfd

  // ---------------------------------------------------------------------
  // The invariant between two input characters
  // ---------------------------------------------------------------------

  /**
   * The cursor is at the root exactly when neither raw characters nor a
   * tentative match are buffered; `tentative_determined_chars` and
   * `tentative_composed` are set together; the pending run holds only
   * conjoinable jamo.
   */
  predicate Consistent(st: ComposerState)
  {
    && (st.position == [] <==> st.pendingChars == [] && st.tentativeComposed.None?)
    && (st.tentativeDeterminedChars.Some? <==> st.tentativeComposed.Some?)
    && (forall i :: 0 <= i < |st.pendingHangulJamos| ==> IsHangulConjoinableJamo(st.pendingHangulJamos[i]))
  }

  lemma StepConsistent(root: Dict, st: ComposerState, c: char)
    requires Consistent(st)
    ensures Consistent(Step(root, st, c))
  {
    var dict := Cursor(root, st.position);
    if !IsLive(dict, c) {
      var f := FlushBuffered(st);
      assert f.position == [] && f.pendingChars == [] && f.tentativeComposed.None?;
      assert f.pendingHangulJamos == [] || f.pendingHangulJamos == st.pendingHangulJamos;
      assert Consistent(f);
    }
  }

  /** The invariant holds after every prefix of the input. */
  lemma {:induction false} RunConsistent(root: Dict, input: seq<char>)
    ensures Consistent(Run(root, input))
    decreases |input|
  {
    if input != [] {
      RunConsistent(root, input[..|input| - 1]);
      StepConsistent(root, Run(root, input[..|input| - 1]), input[|input| - 1]);
    }
  }

  // ---------------------------------------------------------------------
  // The fallback after a tentative match
  // ---------------------------------------------------------------------

  /**
   * A dead end with something buffered emits, in this order, the composed
   * jamo run, the tentative character and the raw characters buffered since
   * it, and then reads the same character again from the root with
   * nothing buffered.
   */
  lemma StepFallsBack(root: Dict, st: ComposerState, c: char)
    requires Consistent(st) && HasBuffered(st) && !IsLive(Cursor(root, st.position), c)
    ensures Step(root, st, c)
         == Step(root, Start.(result := st.result + ComposedJamos(st.pendingHangulJamos)
                                          + Chars(st.tentativeComposed) + st.pendingChars), c)
  {
    var flushed := Start.(result := st.result + ComposedJamos(st.pendingHangulJamos)
                                    + Chars(st.tentativeComposed) + st.pendingChars);
    assert FlushBuffered(st) == flushed by {
      if st.tentativeComposed.None? {
        assert st.pendingChars != [];
      }
    }
    StepRetries(root, st, c);
  }

  // ---------------------------------------------------------------------
  // Text that completes no entry
  // ---------------------------------------------------------------------

  /** The walk along `w` ends at no node holding a character: `w` completes no entry. */
  predicate NoMatch(root: Dict, w: seq<char>)
    requires w != []
  {
    Walk(root, w).None? || Walk(root, w).value.current.None?
  }

  /** The walk along `w` ends at no live node. */
  predicate Blocked(root: Dict, w: seq<char>)
    requires w != []
  {
    Walk(root, w).None? || ShapeOf(Walk(root, w).value) == Dead
  }

  /**
   * No non-empty infix of `s` completes an entry, and none that ends in a
   * conjoinable jamo continues one.  Characters of `s` may start entries,
   * as most Latin letters and kana do: the composer then buffers them raw,
   * and at the dead end emits them and reads on from the root.
   */
  ghost predicate PlainText(root: Dict, s: seq<char>)
  {
    forall i, j :: 0 <= i < j <= |s| ==>
      NoMatch(root, s[i..j]) && (IsHangulConjoinableJamo(s[j - 1]) ==> Blocked(root, s[i..j]))
  }

  /**
   * A sufficient condition that does not quantify over infixes: no jamo of
   * `s` is a key of the root, and every other character either is no key,
   * or its node holds no character and does not continue with the next
   * character of `s`.
   */
  lemma PlainFromFirstLevel(root: Dict, s: seq<char>)
    requires forall i :: 0 <= i < |s| && IsHangulConjoinableJamo(s[i]) ==> s[i] !in root
    requires forall i :: 0 <= i < |s| && s[i] in root ==>
      root[s[i]].current.None? && (i + 1 < |s| && root[s[i]].next.Some? ==> s[i + 1] !in root[s[i]].next.value)
    ensures PlainText(root, s)
  {
    forall i, j | 0 <= i < j <= |s|
      ensures NoMatch(root, s[i..j]) && (IsHangulConjoinableJamo(s[j - 1]) ==> Blocked(root, s[i..j]))
    {
      var w := s[i..j];
      assert w[0] == s[i] && w[|w| - 1] == s[j - 1];
      if s[i] in root && j > i + 1 && root[s[i]].next.Some? {
        assert w[1..][0] == s[i + 1];
      }
    }
  }

  /** `s` with every maximal run of conjoinable jamo composed on its own, as compose_hangul_jamos does. */
  function ComposeRuns(s: seq<char>): seq<char>
    decreases |s|
  {
    if s == [] then []
    else if !IsHangulConjoinableJamo(s[|s| - 1]) then ComposeRuns(s[..|s| - 1]) + [s[|s| - 1]]
    else
      var (b, t) := SplitJamoTail(s);
      ComposeRuns(b) + ComposedJamos(t)
  }

  /** Without jamo there is nothing to compose. */
  lemma {:induction false} ComposeRunsNoJamo(s: seq<char>)
    requires forall i :: 0 <= i < |s| ==> !IsHangulConjoinableJamo(s[i])
    ensures ComposeRuns(s) == s
    decreases |s|
  {
    if s != [] {
      ComposeRunsNoJamo(s[..|s| - 1]);
      assert s[..|s| - 1] + [s[|s| - 1]] == s;
    }
  }

  /** The run a jamo-free text and a jamo run end in is that run. */
  lemma {:induction false} SplitJamoTailAt(b: seq<char>, J: seq<char>)
    requires b == [] || !IsHangulConjoinableJamo(b[|b| - 1])
    requires forall i :: 0 <= i < |J| ==> IsHangulConjoinableJamo(J[i])
    ensures SplitJamoTail(b + J) == (b, J)
    decreases |J|
  {
    if J == [] {
      assert b + J == b;
    } else {
      var J' := J[..|J| - 1];
      SplitJamoTailAt(b, J');
      assert (b + J)[..|b + J| - 1] == b + J';
      assert J' + [J[|J| - 1]] == J;
    }
  }

  /**
   * A flush point: the text before a jamo run, the run, and characters
   * after it that are no jamo compose independently.
   */
  lemma {:induction false} ComposeRunsFlush(b: seq<char>, J: seq<char>, q: seq<char>)
    requires b == [] || !IsHangulConjoinableJamo(b[|b| - 1])
    requires forall i :: 0 <= i < |J| ==> IsHangulConjoinableJamo(J[i])
    requires forall i :: 0 <= i < |q| ==> !IsHangulConjoinableJamo(q[i])
    ensures ComposeRuns(b + J + q) == ComposeRuns(b) + ComposedJamos(J) + q
    decreases |q|
  {
    if q == [] {
      ComposeRunsRun(b, J);
      assert b + J + q == b + J;
    } else {
      var q', x := q[..|q| - 1], q[|q| - 1];
      ComposeRunsFlush(b, J, q');
      SnocParts(b + J, q);
    }
  }

  /** The jamo run at the end of a text composes on its own. */
  lemma ComposeRunsRun(b: seq<char>, J: seq<char>)
    requires b == [] || !IsHangulConjoinableJamo(b[|b| - 1])
    requires forall i :: 0 <= i < |J| ==> IsHangulConjoinableJamo(J[i])
    ensures ComposeRuns(b + J) == ComposeRuns(b) + ComposedJamos(J)
  {
    if J != [] {
      SplitJamoTailAt(b, J);
      SnocParts(b, J);
    } else {
      assert b + J == b;
    }
  }

  /** Cutting the last character off a text that ends in `q`. */
  lemma SnocParts(a: seq<char>, q: seq<char>)
    requires q != []
    ensures (a + q)[..|a + q| - 1] == a + q[..|q| - 1] && (a + q)[|a + q| - 1] == q[|q| - 1]
    ensures q[..|q| - 1] + [q[|q| - 1]] == q
  {
    assert (a + q)[..|a + q| - 1] == a + q[..|q| - 1];
  }

  /**
   * Where every character that is no jamo is inert, composing the runs one
   * by one is composing the whole text.
   */
  lemma {:induction false} ComposeRunsInert(s: seq<char>)
    requires forall i :: 0 <= i < |s| && !IsHangulConjoinableJamo(s[i]) ==> Inert(s[i])
    ensures ComposeRuns(s) == ComposedJamos(s)
    decreases |s|
  {
    if s != [] {
      var x := s[|s| - 1];
      if !IsHangulConjoinableJamo(x) {
        var s' := s[..|s| - 1];
        SnocParts([], s);
        InertPrefix(s, s', [x]);
        ComposeRunsInert(s');
        InertSnoc(s', x);
      } else {
        var (b, t) := SplitJamoTail(s);
        InertPrefix(s, b, t);
        ComposeRunsInert(b);
        ComposedJamosAppend(b, t);
      }
    }
  }

  /** A prefix of a text whose other characters are inert has the same property, and ends inert when it ends outside a jamo run. */
  lemma InertPrefix(s: seq<char>, b: seq<char>, t: seq<char>)
    requires s == b + t
    requires forall i :: 0 <= i < |s| && !IsHangulConjoinableJamo(s[i]) ==> Inert(s[i])
    ensures forall i :: 0 <= i < |b| && !IsHangulConjoinableJamo(b[i]) ==> Inert(b[i])
    ensures b != [] && !IsHangulConjoinableJamo(b[|b| - 1]) ==> Inert(b[|b| - 1])
  {
    assert forall i :: 0 <= i < |b| ==> b[i] == s[i];
  }

  /** Appending an inert character to such a text appends it to the composition. */
  lemma InertSnoc(s: seq<char>, x: char)
    requires forall i :: 0 <= i < |s| && !IsHangulConjoinableJamo(s[i]) ==> Inert(s[i])
    requires Inert(x)
    ensures ComposedJamos(s + [x]) == ComposedJamos(s) + [x]
  {
    var (b, t) := SplitJamoTail(s);
    InertPrefix(s, b, t);
    ComposedJamosCloseRun(b, t, x);
    ComposedJamosAppend(b, t);
  }



  /** The composer holding the jamo run `J` and, after it, the raw characters `q` it walked from the root. */
  function Holding(r: seq<char>, J: seq<char>, q: seq<char>): ComposerState
  {
    ComposerState(q, q, J, None, None, r)
  }

  /** `b` ends outside a jamo run, `J` is one, and `q` holds no jamo and walks to a node with children. */
  ghost predicate HeldParts(root: Dict, b: seq<char>, J: seq<char>, q: seq<char>)
  {
    && (b == [] || !IsHangulConjoinableJamo(b[|b| - 1]))
    && (forall i :: 0 <= i < |J| ==> IsHangulConjoinableJamo(J[i]))
    && (forall i :: 0 <= i < |q| ==> !IsHangulConjoinableJamo(q[i]))
    && (q != [] ==> Walk(root, q).Some? && Walk(root, q).value.next.Some?)
  }

  /**
   * After reading `t`, the composer holds a jamo run and then raw
   * characters, and nothing else, and has emitted ComposeRuns of the text
   * before them.
   */
  ghost predicate ReadsRaw(root: Dict, t: seq<char>, st: ComposerState)
  {
    var J, q := st.pendingHangulJamos, st.pendingChars;
    && |J| + |q| <= |t|
    && (var b := t[..|t| - |J| - |q|];
        && t == b + J + q
        && st == Holding(ComposeRuns(b), J, q)
        && HeldParts(root, b, J, q))
  }

  lemma ReadsRawOf(root: Dict, t: seq<char>, b: seq<char>, J: seq<char>, q: seq<char>)
    requires t == b + J + q && HeldParts(root, b, J, q)
    ensures ReadsRaw(root, t, Holding(ComposeRuns(b), J, q))
  {
    assert t[..|t| - |J| - |q|] == b;
  }

  /** The sequence identities of one more character after the parts b, J and q. */
  lemma AppendParts(t: seq<char>, b: seq<char>, J: seq<char>, q: seq<char>, c: char)
    requires t == b + J + q
    ensures t + [c] == b + J + (q + [c]) && t == t + [] && [] + [c] == [c]
    ensures q == [] ==> t + [c] == b + (J + [c]) + [] && t + [c] == (t + [c]) + [] + [] && t + [c] == b + J + [c]
    ensures q != [] ==> t[|t| - 1] == q[|q| - 1]
  {
  }

  /** One character read from the root with only a jamo run buffered. */
  lemma StepAtRootRaw(root: Dict, t: seq<char>, b: seq<char>, J: seq<char>, c: char)
    requires t == b + J && HeldParts(root, b, J, [])
    requires NoMatch(root, [c]) && (IsHangulConjoinableJamo(c) ==> Blocked(root, [c]))
    ensures ReadsRaw(root, t + [c], Step(root, Holding(ComposeRuns(b), J, []), c))
  {
    assert Walk(root, [c]) == if c in root then Some(root[c]) else None;
    if IsLive(root, c) {
      RootStartsWalk(root, t, b, J, c);
    } else if IsHangulConjoinableJamo(c) {
      RootBuffersJamo(root, t, b, J, c);
    } else {
      RootPassesThrough(root, t, b, J, c);
    }
  }

  lemma RootStartsWalk(root: Dict, t: seq<char>, b: seq<char>, J: seq<char>, c: char)
    requires t == b + J && HeldParts(root, b, J, [])
    requires IsLive(root, c) && NoMatch(root, [c]) && (IsHangulConjoinableJamo(c) ==> Blocked(root, [c]))
    ensures ReadsRaw(root, t + [c], Step(root, Holding(ComposeRuns(b), J, []), c))
  {
    assert Walk(root, [c]) == Some(root[c]);
    StepExtendsPrefix(root, Holding(ComposeRuns(b), J, []), c);
    AppendParts(t, b, J, [], c);
    ReadsRawOf(root, t + [c], b, J, [c]);
  }

  lemma RootBuffersJamo(root: Dict, t: seq<char>, b: seq<char>, J: seq<char>, c: char)
    requires t == b + J && HeldParts(root, b, J, [])
    requires !IsLive(root, c) && IsHangulConjoinableJamo(c)
    ensures ReadsRaw(root, t + [c], Step(root, Holding(ComposeRuns(b), J, []), c))
  {
    StepBuffersJamo(root, Holding(ComposeRuns(b), J, []), c);
    AppendParts(t, b, J, [], c);
    ReadsRawOf(root, t + [c], b, J + [c], []);
  }

  lemma RootPassesThrough(root: Dict, t: seq<char>, b: seq<char>, J: seq<char>, c: char)
    requires t == b + J && HeldParts(root, b, J, [])
    requires !IsLive(root, c) && !IsHangulConjoinableJamo(c)
    ensures ReadsRaw(root, t + [c], Step(root, Holding(ComposeRuns(b), J, []), c))
  {
    StepPassesThrough(root, Holding(ComposeRuns(b), J, []), c);
    ComposeRunsFlush(b, J, [c]);
    AppendParts(t, b, J, [], c);
    ReadsRawOf(root, t + [c], t + [c], [], []);
  }

  /** The parts ReadsRaw names. */
  lemma ReadsRawParts(root: Dict, t: seq<char>, st: ComposerState) returns (b: seq<char>, J: seq<char>, q: seq<char>)
    requires ReadsRaw(root, t, st)
    ensures t == b + J + q && HeldParts(root, b, J, q) && st == Holding(ComposeRuns(b), J, q)
    ensures J == st.pendingHangulJamos && q == st.pendingChars
  {
    J, q := st.pendingHangulJamos, st.pendingChars;
    b := t[..|t| - |J| - |q|];
  }

  /** The flush of raw characters after a jamo run. */
  lemma FlushHolding(r: seq<char>, J: seq<char>, q: seq<char>)
    requires q != []
    ensures FlushBuffered(Holding(r, J, q)) == Holding(r + ComposedJamos(J) + q, [], [])
    ensures Holding(r + ComposedJamos(J) + q, [], []) == Start.(result := r + ComposedJamos(J) + q)
  {
  }

  lemma SuffixOf(a: seq<char>, b: seq<char>, J: seq<char>, q: seq<char>)
    requires a == b + J + q
    ensures a[|a| - |q|..] == q
  {
  }

  /** One character read with raw characters buffered. */
  lemma StepOnRaw(root: Dict, t: seq<char>, b: seq<char>, J: seq<char>, q: seq<char>, c: char)
    requires t == b + J + q && HeldParts(root, b, J, q) && q != []
    requires NoMatch(root, [c]) && (IsHangulConjoinableJamo(c) ==> Blocked(root, [c]))
    requires NoMatch(root, q + [c]) && (IsHangulConjoinableJamo(c) ==> Blocked(root, q + [c]))
    ensures ReadsRaw(root, t + [c], Step(root, Holding(ComposeRuns(b), J, q), c))
  {
    var st := Holding(ComposeRuns(b), J, q);
    WalkExtends(root, q, c);
    if IsLive(Cursor(root, q), c) {
      StepExtendsPrefix(root, st, c);
      AppendParts(t, b, J, q, c);
      ReadsRawOf(root, t + [c], b, J, q + [c]);
    } else {
      StepRetries(root, st, c);
      ComposeRunsFlush(b, J, q);
      FlushHolding(ComposeRuns(b), J, q);
      AppendParts(t, b, J, q, c);
      StepAtRootRaw(root, t, t, [], c);
    }
  }

  /** One more character of plain text keeps the composer holding only raw characters and a jamo run. */
  lemma StepRaw(root: Dict, t: seq<char>, st: ComposerState, c: char)
    requires ReadsRaw(root, t, st)
    requires NoMatch(root, [c]) && (IsHangulConjoinableJamo(c) ==> Blocked(root, [c]))
    requires st.pendingChars != [] ==>
      NoMatch(root, st.pendingChars + [c]) && (IsHangulConjoinableJamo(c) ==> Blocked(root, st.pendingChars + [c]))
    ensures ReadsRaw(root, t + [c], Step(root, st, c))
  {
    var b, J, q := ReadsRawParts(root, t, st);
    if q == [] {
      assert t == b + J;
      StepAtRootRaw(root, t, b, J, c);
    } else {
      StepOnRaw(root, t, b, J, q, c);
    }
  }

  /** A prefix of plain text is plain. */
  lemma PlainPrefix(root: Dict, t: seq<char>, c: char)
    requires PlainText(root, t + [c])
    ensures PlainText(root, t)
  {
    forall i, j | 0 <= i < j <= |t|
      ensures NoMatch(root, t[i..j]) && (IsHangulConjoinableJamo(t[j - 1]) ==> Blocked(root, t[i..j]))
    {
      assert (t + [c])[i..j] == t[i..j] && (t + [c])[j - 1] == t[j - 1];
    }
  }

  /** What plain text says of the walk along a suffix of `t` followed by `c`. */
  lemma PlainSuffix(root: Dict, t: seq<char>, c: char, i: int)
    requires PlainText(root, t + [c]) && 0 <= i <= |t|
    ensures NoMatch(root, t[i..] + [c]) && (IsHangulConjoinableJamo(c) ==> Blocked(root, t[i..] + [c]))
  {
    assert (t + [c])[i..|t| + 1] == t[i..] + [c] && (t + [c])[|t|] == c;
  }

  /** Reading plain text, the composer only ever holds raw characters and a jamo run. */
  lemma {:induction false} RunRaw(root: Dict, t: seq<char>)
    requires PlainText(root, t)
    ensures ReadsRaw(root, t, Run(root, t))
    decreases |t|
  {
    if t == [] {
      ReadsRawOf(root, [], [], [], []);
    } else {
      var t', c := t[..|t| - 1], t[|t| - 1];
      assert t' + [c] == t;
      PlainPrefix(root, t', c);
      RunRaw(root, t');
      var st := Run(root, t');
      var q := st.pendingChars;
      assert t'[|t'| - |q|..] == q;
      PlainSuffix(root, t', c, |t'| - |q|);
      PlainSuffix(root, t', c, |t'|);
      assert t'[|t'|..] + [c] == [c];
      StepRaw(root, t', st, c);
      RunSnoc(root, t', c);
    }
  }

  /** The parts ReadsRaw names, after reading plain text. */
  lemma RawParts(root: Dict, t: seq<char>) returns (b: seq<char>, J: seq<char>, q: seq<char>)
    requires PlainText(root, t)
    ensures t == b + J + q && HeldParts(root, b, J, q)
    ensures Run(root, t) == Holding(ComposeRuns(b), J, q)
    ensures ComposeRuns(t) == ComposeRuns(b) + ComposedJamos(J) + q
  {
    RunRaw(root, t);
    J, q := Run(root, t).pendingHangulJamos, Run(root, t).pendingChars;
    b := t[..|t| - |J| - |q|];
    ComposeRunsFlush(b, J, q);
  }

  /**
   * compose_from_hfs_nfd on plain text: the raw characters it buffers are
   * emitted unchanged, and every jamo run is composed on its own.
   */
  lemma ComposedPlain(root: Dict, t: seq<char>)
    requires PlainText(root, t)
    ensures Composed(root, t) == ComposeRuns(t)
  {
    var b, J, q := RawParts(root, t);
  }

  /**
   * compose_from_hfs_nfd returns its input when no infix of it completes an
   * entry and no character is a jamo, even where its characters start
   * entries.
   */
  lemma ComposedPassesThrough(root: Dict, s: seq<char>)
    requires PlainText(root, s)
    requires forall i :: 0 <= i < |s| ==> !IsHangulConjoinableJamo(s[i])
    ensures Composed(root, s) == s
  {
    ComposedPlain(root, s);
    ComposeRunsNoJamo(s);
  }

  // ---------------------------------------------------------------------
  // Resuming after a flush
  // ---------------------------------------------------------------------

  /** `st` with `r` emitted ahead of its output. */
  function Shifted(r: seq<char>, st: ComposerState): ComposerState
  {
    st.(result := r + st.result)
  }

  lemma FlushShifted(r: seq<char>, st: ComposerState)
    ensures FlushJamos(Shifted(r, st)) == Shifted(r, FlushJamos(st))
    ensures FlushBuffered(Shifted(r, st)) == Shifted(r, FlushBuffered(st))
  {
  }

  lemma AdvanceShifted(r: seq<char>, st: ComposerState, node: Node, c: char)
    requires ShapeOf(node) != Dead
    ensures Advance(Shifted(r, st), node, c) == Shifted(r, Advance(st, node, c))
  {
    FlushShifted(r, st);
  }

  lemma EmitShifted(r: seq<char>, st: ComposerState, c: char)
    ensures Emit(Shifted(r, st), c) == Shifted(r, Emit(st, c))
  {
    FlushShifted(r, st);
  }

  /** The composer never reads what it has emitted. */
  lemma StepShifted(root: Dict, r: seq<char>, st: ComposerState, c: char)
    ensures Step(root, Shifted(r, st), c) == Shifted(r, Step(root, st, c))
  {
    var dict := Cursor(root, st.position);
    if IsLive(dict, c) {
      AdvanceShifted(r, st, dict[c], c);
    } else {
      FlushShifted(r, st);
      var f := FlushBuffered(st);
      if IsLive(root, c) {
        AdvanceShifted(r, f, root[c], c);
      }
      EmitShifted(r, f, c);
    }
  }

  /** The state after reading `s` from `st`. */
  function RunFrom(root: Dict, st: ComposerState, s: seq<char>): ComposerState
    decreases |s|
  {
    if s == [] then st else Step(root, RunFrom(root, st, s[..|s| - 1]), s[|s| - 1])
  }

  /** Reading `a` and then `s` is reading `s` from the state `a` leaves. */
  lemma {:induction false} RunAppend(root: Dict, a: seq<char>, s: seq<char>)
    ensures Run(root, a + s) == RunFrom(root, Run(root, a), s)
    decreases |s|
  {
    if s == [] {
      assert a + s == a;
    } else {
      RunAppend(root, a, s[..|s| - 1]);
      SnocParts(a, s);
      RunSnoc(root, a + s[..|s| - 1], s[|s| - 1]);
    }
  }

  lemma {:induction false} RunFromShifted(root: Dict, r: seq<char>, st: ComposerState, s: seq<char>)
    ensures RunFrom(root, Shifted(r, st), s) == Shifted(r, RunFrom(root, st, s))
    decreases |s|
  {
    if s != [] {
      RunFromShifted(root, r, st, s[..|s| - 1]);
      StepShifted(root, r, RunFrom(root, st, s[..|s| - 1]), s[|s| - 1]);
    }
  }

  lemma FinishShifted(r: seq<char>, st: ComposerState)
    ensures Finish(Shifted(r, st)) == r + Finish(st)
  {
  }

  /**
   * Two inputs that leave the composer in the same state, except for output
   * the first has already emitted, compose every continuation alike.
   */
  lemma ComposedResumes(root: Dict, x: seq<char>, r: seq<char>, y: seq<char>, s: seq<char>)
    requires Run(root, x) == Shifted(r, Run(root, y))
    ensures Composed(root, x + s) == r + Composed(root, y + s)
  {
    RunAppend(root, x, s);
    RunAppend(root, y, s);
    RunFromShifted(root, r, Run(root, y), s);
    FinishShifted(r, Run(root, y + s));
  }

  /** Reading `c` from the root after emitting `r` is reading `c` alone, `r` ahead. */
  lemma AfterFlush(root: Dict, x: seq<char>, r: seq<char>, c: char)
    requires Run(root, x + [c]) == Step(root, Start.(result := r), c)
    ensures Composed(root, x + [c] + []) == r + Composed(root, [c])
    ensures Run(root, x + [c]) == Shifted(r, Run(root, [c]))
  {
    assert Start.(result := r) == Shifted(r, Start);
    StepShifted(root, r, Start, c);
    RunSnoc(root, [], c);
    assert [] + [c] == [c];
    ComposedResumes(root, x + [c], r, [c], []);
    assert [c] + [] == [c];
  }

  /** `s` cut before the longest run of conjoinable jamo that ends it: the text before the run, and the run. */
  function SplitJamoTail(s: seq<char>): (r: (seq<char>, seq<char>))
    ensures r.0 + r.1 == s
    ensures forall i :: 0 <= i < |r.1| ==> IsHangulConjoinableJamo(r.1[i])
    ensures r.0 == [] || !IsHangulConjoinableJamo(r.0[|r.0| - 1])
    ensures s != [] && IsHangulConjoinableJamo(s[|s| - 1]) ==> r.1 != []
    decreases |s|
  {
    if s == [] || !IsHangulConjoinableJamo(s[|s| - 1]) then (s, [])
    else
      var (b, t) := SplitJamoTail(s[..|s| - 1]);
      (b, t + [s[|s| - 1]])
  }

  /** What the table cannot see: no character enters it from the root, none is a syllable or U+11A7. */
  predicate OutsideTable(root: Dict, c: char)
  {
    !IsLive(root, c) && !IsHangulPrecomposedSyllable(c) && c as int != TBASE
  }

  /** Outside the table a character that is not a jamo is inert to the merge loop. */
  lemma OutsideTableInert(root: Dict, c: char)
    requires OutsideTable(root, c) && !IsHangulConjoinableJamo(c)
    ensures Inert(c)
  {
  }

  /** Outside the table, the text before the trailing jamo run ends in an inert character. */
  lemma BodyEndsInert(root: Dict, s: seq<char>)
    requires forall i :: 0 <= i < |s| ==> OutsideTable(root, s[i])
    ensures var b := SplitJamoTail(s).0; b == [] || Inert(b[|b| - 1])
  {
    var (b, t) := SplitJamoTail(s);
    if b != [] {
      assert b[|b| - 1] == s[|b| - 1];
      OutsideTableInert(root, s[|b| - 1]);
    }
  }

  /**
   * Outside the table the composer has emitted the composed text up to the
   * last character that is not a jamo and holds the jamo after it as the
   * pending run.
   */
  lemma {:induction false} RunOutsideTable(root: Dict, s: seq<char>)
    requires forall i :: 0 <= i < |s| ==> OutsideTable(root, s[i])
    ensures Run(root, s) == Start.(result := ComposedJamos(SplitJamoTail(s).0), pendingHangulJamos := SplitJamoTail(s).1)
    decreases |s|
  {
    if s != [] {
      var s', c := s[..|s| - 1], s[|s| - 1];
      OutsidePrefix(root, s, s');
      RunOutsideTable(root, s');
      BodyEndsInert(root, s');
      var (b, t) := SplitJamoTail(s');
      StepOutsideTable(root, b, t, c);
      SnocParts([], s);
    }
  }

  /** The prefix and the last character of text outside the table are outside it. */
  lemma OutsidePrefix(root: Dict, s: seq<char>, s': seq<char>)
    requires s != [] && s' == s[..|s| - 1] && forall i :: 0 <= i < |s| ==> OutsideTable(root, s[i])
    ensures forall i :: 0 <= i < |s'| ==> OutsideTable(root, s'[i])
    ensures OutsideTable(root, s[|s| - 1])
  {
  }

  /** One character outside the table, read with nothing buffered but a jamo run. */
  lemma StepOutsideTable(root: Dict, p: seq<char>, j: seq<char>, c: char)
    requires p == [] || Inert(p[|p| - 1])
    requires OutsideTable(root, c)
    ensures Step(root, Start.(result := ComposedJamos(p), pendingHangulJamos := j), c)
         == if IsHangulConjoinableJamo(c) then Start.(result := ComposedJamos(p), pendingHangulJamos := j + [c])
            else Start.(result := ComposedJamos(p + j + [c]))
  {
    if !IsHangulConjoinableJamo(c) {
      OutsideTableInert(root, c);
      ComposedJamosCloseRun(p, j, c);
    }
  }

  /**
   * Outside the table compose_from_hfs_nfd is compose_hangul_jamos: the
   * jamo runs the composer cuts out and composes one by one compose as the
   * whole text would.
   */
  lemma ComposedOutsideTable(root: Dict, s: seq<char>)
    requires forall i :: 0 <= i < |s| ==> OutsideTable(root, s[i])
    ensures Composed(root, s) == ComposedJamos(s)
  {
    RunOutsideTable(root, s);
    BodyEndsInert(root, s);
    var (b, t) := SplitJamoTail(s);
    ComposedJamosAppend(b, t);
    FinishOutsideTable(ComposedJamos(b), t);
  }

  /** At the end of input with only a jamo run buffered, the run is composed and appended. */
  lemma FinishOutsideTable(result: seq<char>, t: seq<char>)
    ensures Finish(Start.(result := result, pendingHangulJamos := t)) == result + ComposedJamos(t)
  {
  }

  /**
   * A text with no table key and no mergeable jamo: composing the runs of
   * its decomposition one by one gives it back.
   */
  lemma DecomposedRunsBack(table: HfsMap, s: seq<char>)
    requires forall i :: 0 <= i < |s| ==> s[i] !in table
    requires NoMergeableJamo(s)
    ensures ComposeRuns(Decomposed(table, s)) == s
  {
    DecomposedWithoutTable(table, s);
    var t := DecomposeAllSyllables(s);
    forall j | 0 <= j < |t| && !IsHangulConjoinableJamo(t[j]) ensures Inert(t[j]) {
      DecomposeAllSyllablesChars(s, j);
      var i :| 0 <= i < |s| && s[i] == t[j];
    }
    ComposeRunsInert(t);
    ComposeDecomposeRoundTrip(s);
  }

  /**
   * Korean and other text round trip: a text with no table key and no
   * loose jamo or U+11A7, whose decomposition completes no entry and
   * continues none with a jamo, is restored by composing its decomposition.
   * Its characters may start entries.
   */
  lemma HangulRoundTrip(table: HfsMap, root: Dict, s: seq<char>)
    requires forall i :: 0 <= i < |s| ==> s[i] !in table
    requires NoMergeableJamo(s)
    requires PlainText(root, Decomposed(table, s))
    ensures Composed(root, Decomposed(table, s)) == s
  {
    ComposedPlain(root, Decomposed(table, s));
    DecomposedRunsBack(table, s);
  }

  // ---------------------------------------------------------------------
  // One table entry
  // ---------------------------------------------------------------------

  /** The node after the first `j` characters of `p` exists and has children. */
  predicate InnerNode(root: Dict, p: seq<char>, j: int)
    requires 1 <= j <= |p|
  {
    Walk(root, p[..j]).Some? && Walk(root, p[..j]).value.next.Some?
  }

  /** Every node strictly inside the walk along `p` exists and has children. */
  ghost predicate InnerPath(root: Dict, p: seq<char>)
  {
    forall j :: 1 <= j < |p| ==> InnerNode(root, p, j)
  }

  /** The node after the first `j` characters of `p` is ambiguous. */
  predicate AmbiguousAt(root: Dict, p: seq<char>, j: int)
    requires 1 <= j <= |p|
  {
    Walk(root, p[..j]).Some? && ShapeOf(Walk(root, p[..j]).value) == Ambiguous
  }

  /** Once a tentative match is taken along `p`, every later inner node is ambiguous too. */
  ghost predicate NoPrefixAfterAmbiguous(root: Dict, p: seq<char>)
  {
    forall i, j :: 1 <= i <= j < |p| && AmbiguousAt(root, p, i) ==> AmbiguousAt(root, p, j)
  }

  /**
   * Reading the inner part of an entry, with nothing but a jamo run
   * buffered, only advances the cursor: nothing is emitted.  Until the first
   * ambiguous node the characters are buffered raw; without a prefix node
   * after an ambiguous one, a tentative match leaves no raw character
   * behind and has determined the whole path.
   */
  lemma {:induction false} RunAlongPath(root: Dict, a: seq<char>, r: seq<char>, J: seq<char>, p: seq<char>, j: nat)
    requires Run(root, a) == Start.(result := r, pendingHangulJamos := J)
    requires j < |p| && InnerPath(root, p)
    ensures var st := Run(root, a + p[..j]);
      && st.position == p[..j] && st.result == r && st.pendingHangulJamos == J
      && (st.tentativeDeterminedChars.None? ==> st.pendingChars == p[..j])
      && (NoPrefixAfterAmbiguous(root, p) && st.tentativeDeterminedChars.Some? ==>
            st.pendingChars == [] && st.tentativeDeterminedChars.value == p[..j] && 1 <= j && AmbiguousAt(root, p, j))
    decreases j
  {
    if j == 0 {
      assert a + p[..0] == a;
    } else {
      RunAlongPath(root, a, r, J, p, j - 1);
      var st', c := Run(root, a + p[..j - 1]), p[j - 1];
      SliceSnoc(a, p, j);
      RunSnoc(root, a + p[..j - 1], c);
      StepOnPath(root, st', p, j);
      var node := Walk(root, p[..j]).value;
      var strict := NoPrefixAfterAmbiguous(root, p);
      if strict && st'.tentativeDeterminedChars.Some? {
        assert AmbiguousAt(root, p, j - 1);
        assert AmbiguousAt(root, p, j);
      }
      AdvanceInside(st', node, c, r, J, p[..j - 1], strict);
    }
  }

  /** Cutting one more character of `p` off onto the text. */
  lemma SliceSnoc(a: seq<char>, p: seq<char>, j: int)
    requires 1 <= j <= |p|
    ensures p[..j - 1] + [p[j - 1]] == p[..j]
    ensures a + p[..j] == (a + p[..j - 1]) + [p[j - 1]]
  {
    assert p[..j - 1] + [p[j - 1]] == p[..j];
  }

  /** With the cursor at the first `j - 1` characters of `p`, the next one advances into an inner node. */
  lemma StepOnPath(root: Dict, st: ComposerState, p: seq<char>, j: int)
    requires 1 <= j < |p| && InnerPath(root, p) && st.position == p[..j - 1]
    ensures InnerNode(root, p, j)
    ensures Step(root, st, p[j - 1]) == Advance(st, Walk(root, p[..j]).value, p[j - 1])
  {
    var c := p[j - 1];
    SliceSnoc([], p, j);
    WalkExtends(root, p[..j - 1], c);
    assert InnerNode(root, p, j);
    if j > 1 {
      assert InnerNode(root, p, j - 1);
    }
    assert c in Cursor(root, p[..j - 1]) && Cursor(root, p[..j - 1])[c] == Walk(root, p[..j]).value;
  }

  /** One inner character of an entry, read from the state RunAlongPath describes. */
  lemma AdvanceInside(st: ComposerState, node: Node, c: char, r: seq<char>, J: seq<char>, q: seq<char>, strict: bool)
    requires node.next.Some?
    requires st.result == r && st.pendingHangulJamos == J && st.position == q
    requires st.tentativeDeterminedChars.None? ==> st.pendingChars == q
    requires strict && st.tentativeDeterminedChars.Some? ==>
      st.pendingChars == [] && st.tentativeDeterminedChars.value == q && node.current.Some?
    ensures var st2 := Advance(st, node, c);
      && st2.position == q + [c] && st2.result == r && st2.pendingHangulJamos == J
      && (st2.tentativeDeterminedChars.None? ==> st2.pendingChars == q + [c])
      && (strict && st2.tentativeDeterminedChars.Some? ==>
            st2.pendingChars == [] && st2.tentativeDeterminedChars.value == q + [c] && node.current.Some?)
  {
  }

  /**
   * Walk correctness, on the state: an entry whose walk ends at a node
   * holding `k` is recognised.  A leaf is a definite match: the jamo run
   * buffered before the entry is emitted, then `k`, and the composer is back
   * at the root.  An ambiguous end node (with no prefix node after an
   * ambiguous one on the way) leaves `k` as the tentative match.
   */
  lemma EntryRun(root: Dict, a: seq<char>, r: seq<char>, J: seq<char>, p: seq<char>, k: char)
    requires Run(root, a) == Start.(result := r, pendingHangulJamos := J)
    requires p != [] && InnerPath(root, p)
    requires Walk(root, p).Some? && Walk(root, p).value.current == Some(k)
    requires Walk(root, p).value.next.None? || NoPrefixAfterAmbiguous(root, p)
    ensures Walk(root, p).value.next.None? ==>
      Run(root, a + p) == Start.(result := r + ComposedJamos(J) + [k])
    ensures Walk(root, p).value.next.Some? ==>
      Run(root, a + p) == Start.(result := r, pendingHangulJamos := J, position := p,
                                 tentativeComposed := Some(k), tentativeDeterminedChars := Some(p))
  {
    var n := |p| - 1;
    RunAlongPath(root, a, r, J, p, n);
    RunConsistent(root, a + p[..n]);
    var st, c := Run(root, a + p[..n]), p[n];
    SliceSnoc(a, p, |p|);
    assert p[..|p|] == p;
    RunSnoc(root, a + p[..n], c);
    StepAtEntryEnd(root, st, p);
    AdvanceAtEntryEnd(st, Walk(root, p).value, c, r, J, p[..n], k);
  }

  /** With the cursor at all but the last character of `p`, the last one advances to the end node. */
  lemma StepAtEntryEnd(root: Dict, st: ComposerState, p: seq<char>)
    requires p != [] && InnerPath(root, p) && st.position == p[..|p| - 1]
    requires Walk(root, p).Some? && Walk(root, p).value.current.Some?
    ensures Step(root, st, p[|p| - 1]) == Advance(st, Walk(root, p).value, p[|p| - 1])
  {
    var n, c := |p| - 1, p[|p| - 1];
    SliceSnoc([], p, |p|);
    assert p[..|p|] == p;
    WalkExtends(root, p[..n], c);
    if n > 0 {
      assert InnerNode(root, p, n);
    }
    assert c in Cursor(root, p[..n]) && Cursor(root, p[..n])[c] == Walk(root, p).value;
  }

  /** The last character of an entry, read from the state RunAlongPath describes. */
  lemma AdvanceAtEntryEnd(st: ComposerState, node: Node, c: char, r: seq<char>, J: seq<char>, q: seq<char>, k: char)
    requires Consistent(st) && st.result == r && st.pendingHangulJamos == J && st.position == q
    requires st.tentativeDeterminedChars.None? ==> st.pendingChars == q
    requires node.current == Some(k)
    ensures node.next.None? ==> Advance(st, node, c) == Start.(result := r + ComposedJamos(J) + [k])
    ensures node.next.Some? && (st.tentativeDeterminedChars.Some? ==>
              st.pendingChars == [] && st.tentativeDeterminedChars.value == q) ==>
      Advance(st, node, c) == Start.(result := r, pendingHangulJamos := J, position := q + [c],
                                     tentativeComposed := Some(k), tentativeDeterminedChars := Some(q + [c]))
  {
  }

  /**
   * Walk correctness, on the output: the entry composes to `k`.  After a
   * leaf the jamo run buffered before the entry comes first; after an
   * ambiguous end node at the end of the input, `k` comes BEFORE that run.
   */
  lemma EntryComposes(root: Dict, a: seq<char>, r: seq<char>, J: seq<char>, p: seq<char>, k: char)
    requires Run(root, a) == Start.(result := r, pendingHangulJamos := J)
    requires p != [] && InnerPath(root, p)
    requires Walk(root, p).Some? && Walk(root, p).value.current == Some(k)
    requires Walk(root, p).value.next.None? || NoPrefixAfterAmbiguous(root, p)
    ensures Composed(root, a + p)
         == if Walk(root, p).value.next.None? then r + ComposedJamos(J) + [k] else r + [k] + ComposedJamos(J)
  {
    EntryRun(root, a, r, J, p, k);
  }

  lemma StartParts(p: seq<char>, b: seq<char>, k: char)
    ensures [] + p + b == p + b && [] + ComposedJamos([]) + [k] == [k]
  {
  }

  /** The same at the start of the input. */
  lemma LeafAtStart(root: Dict, p: seq<char>, k: char, b: seq<char>)
    requires p != [] && InnerPath(root, p)
    requires Walk(root, p).Some? && Walk(root, p).value == New(Some(k), None)
    requires PlainText(root, b)
    ensures Composed(root, p + b) == [k] + ComposeRuns(b)
  {
    LeafAtFlush(root, [], [], [], p, k, b);
    StartParts(p, b, k);
  }

  /** A definite match read where nothing but a jamo run is buffered, followed by plain text. */
  lemma LeafAtFlush(root: Dict, a: seq<char>, r: seq<char>, J: seq<char>, p: seq<char>, k: char, b: seq<char>)
    requires Run(root, a) == Start.(result := r, pendingHangulJamos := J)
    requires p != [] && InnerPath(root, p)
    requires Walk(root, p).Some? && Walk(root, p).value == New(Some(k), None)
    requires PlainText(root, b)
    ensures Composed(root, a + p + b) == r + ComposedJamos(J) + [k] + ComposeRuns(b)
  {
    EntryRun(root, a, r, J, p, k);
    var x := r + ComposedJamos(J) + [k];
    assert Run(root, a + p) == Shifted(x, Run(root, []));
    ComposedResumes(root, a + p, x, [], b);
    assert [] + b == b;
    ComposedPlain(root, b);
  }

  /** The same at the start of the input. */
  lemma AmbiguousAtStart(root: Dict, p: seq<char>, k: char, b: seq<char>)
    requires p != [] && InnerPath(root, p) && NoPrefixAfterAmbiguous(root, p)
    requires Walk(root, p).Some? && Walk(root, p).value.current == Some(k) && Walk(root, p).value.next.Some?
    requires b != [] && !IsLive(Walk(root, p).value.next.value, b[0])
    requires PlainText(root, b)
    ensures Composed(root, p + b) == [k] + ComposeRuns(b)
  {
    AmbiguousAtFlush(root, [], [], [], p, k, b);
    StartParts(p, b, k);
  }

  /** An ambiguous match read where nothing but a jamo run is buffered, followed by plain text that does not continue it. */
  lemma AmbiguousAtFlush(root: Dict, a: seq<char>, r: seq<char>, J: seq<char>, p: seq<char>, k: char, b: seq<char>)
    requires Run(root, a) == Start.(result := r, pendingHangulJamos := J)
    requires p != [] && InnerPath(root, p) && NoPrefixAfterAmbiguous(root, p)
    requires Walk(root, p).Some? && Walk(root, p).value.current == Some(k) && Walk(root, p).value.next.Some?
    requires b != [] && !IsLive(Walk(root, p).value.next.value, b[0])
    requires PlainText(root, b)
    ensures Composed(root, a + p + b) == r + ComposedJamos(J) + [k] + ComposeRuns(b)
  {
    EntryRun(root, a, r, J, p, k);
    RunConsistent(root, a + p);
    var x, c := r + ComposedJamos(J) + [k], b[0];
    assert Cursor(root, p) == Walk(root, p).value.next.value;
    StepFallsBack(root, Run(root, a + p), c);
    assert r + ComposedJamos(J) + Chars(Some(k)) + [] == x;
    RunSnoc(root, a + p, c);
    AfterFlush(root, a + p, x, c);
    ComposedResumes(root, a + p + [c], x, [c], b[1..]);
    SplitFirst(a + p, b);
    ComposedPlain(root, b);
  }

  lemma SplitFirst(x: seq<char>, b: seq<char>)
    requires b != []
    ensures x + [b[0]] + b[1..] == x + b && [b[0]] + b[1..] == b
  {
    assert b == [b[0]] + b[1..];
  }

  /** `c` continues the walk along no non-empty suffix of `a`. */
  ghost predicate ContinuesNoWalk(root: Dict, a: seq<char>, c: char)
  {
    forall i :: 0 <= i < |a| ==> !IsLive(Cursor(root, a[i..]), c)
  }

  /**
   * After plain text that still buffers raw characters, a character that
   * continues none of its walks flushes them, and is read from the root.
   */
  lemma FlushBeforeEntry(root: Dict, a: seq<char>, c: char)
    requires PlainText(root, a) && ContinuesNoWalk(root, a, c) && Run(root, a).pendingChars != []
    ensures Run(root, a + [c]) == Shifted(ComposeRuns(a), Run(root, [c]))
  {
    var b, J, q := RawParts(root, a);
    var st := Run(root, a);
    SuffixOf(a, b, J, q);
    assert !IsLive(Cursor(root, a[|a| - |q|..]), c);
    StepRetries(root, st, c);
    FlushHolding(ComposeRuns(b), J, q);
    RunSnoc(root, a, c);
    AfterFlush(root, a, ComposeRuns(a), c);
  }

  /** With no raw character buffered, plain text leaves only its last jamo run pending. */
  lemma HeldJamoRun(root: Dict, t: seq<char>) returns (r: seq<char>, J: seq<char>)
    requires PlainText(root, t)
    ensures Run(root, t).pendingChars == [] ==> Run(root, t) == Holding(r, J, []) && ComposeRuns(t) == r + ComposedJamos(J)
  {
    var b, J', q := RawParts(root, t);
    r, J := ComposeRuns(b), J';
    if q == [] {
      assert ComposeRuns(t) == r + ComposedJamos(J) + [];
    }
  }

  /** After FlushBeforeEntry, the rest composes as it would from the start. */
  lemma FlushedEntry(root: Dict, a: seq<char>, p: seq<char>, b: seq<char>, x: seq<char>)
    requires p != [] && Run(root, a + [p[0]]) == Shifted(x, Run(root, [p[0]]))
    ensures Composed(root, a + p + b) == x + Composed(root, p + b)
  {
    EntryTextParts(a, p, b);
    ComposedResumes(root, a + [p[0]], x, [p[0]], p[1..] + b);
  }

  /** LeafAtFlush after plain text that holds only a jamo run. */
  lemma LeafAfterJamo(root: Dict, a: seq<char>, r: seq<char>, J: seq<char>, p: seq<char>, k: char, b: seq<char>, x: seq<char>)
    requires Run(root, a) == Holding(r, J, []) && x == r + ComposedJamos(J)
    requires p != [] && InnerPath(root, p)
    requires Walk(root, p).Some? && Walk(root, p).value == New(Some(k), None)
    requires PlainText(root, b)
    ensures Composed(root, a + p + b) == x + [k] + ComposeRuns(b)
  {
    assert Holding(r, J, []) == Start.(result := r, pendingHangulJamos := J);
    LeafAtFlush(root, a, r, J, p, k, b);
  }

  /** AmbiguousAtFlush after plain text that holds only a jamo run. */
  lemma AmbiguousAfterJamo(root: Dict, a: seq<char>, r: seq<char>, J: seq<char>, p: seq<char>, k: char, b: seq<char>, x: seq<char>)
    requires Run(root, a) == Holding(r, J, []) && x == r + ComposedJamos(J)
    requires p != [] && InnerPath(root, p) && NoPrefixAfterAmbiguous(root, p)
    requires Walk(root, p).Some? && Walk(root, p).value.current == Some(k) && Walk(root, p).value.next.Some?
    requires b != [] && !IsLive(Walk(root, p).value.next.value, b[0])
    requires PlainText(root, b)
    ensures Composed(root, a + p + b) == x + [k] + ComposeRuns(b)
  {
    assert Holding(r, J, []) == Start.(result := r, pendingHangulJamos := J);
    AmbiguousAtFlush(root, a, r, J, p, k, b);
  }

  /**
   * A definite match inside plain text is replaced by its character; the
   * text before it and after it composes as plain text does.  A walk the
   * text before it leaves open is flushed first, provided the match's first
   * character does not continue it.
   */
  lemma LeafInText(root: Dict, a: seq<char>, p: seq<char>, k: char, b: seq<char>)
    requires PlainText(root, a) && PlainText(root, b)
    requires p != [] && InnerPath(root, p) && ContinuesNoWalk(root, a, p[0])
    requires Walk(root, p).Some? && Walk(root, p).value == New(Some(k), None)
    ensures Composed(root, a + p + b) == ComposeRuns(a) + [k] + ComposeRuns(b)
  {
    var r, J := HeldJamoRun(root, a);
    if Run(root, a).pendingChars == [] {
      LeafAfterJamo(root, a, r, J, p, k, b, ComposeRuns(a));
    } else {
      FlushBeforeEntry(root, a, p[0]);
      FlushedEntry(root, a, p, b, ComposeRuns(a));
      LeafAtStart(root, p, k, b);
    }
  }

  lemma EntryTextParts(a: seq<char>, p: seq<char>, b: seq<char>)
    requires p != []
    ensures a + [p[0]] + (p[1..] + b) == a + p + b
    ensures [p[0]] + (p[1..] + b) == p + b && [] + p + b == p + b
  {
    assert p == [p[0]] + p[1..];
  }

  /**
   * Longest match with fallback inside plain text: when the character after
   * an ambiguous entry continues no longer entry, the entry's character is
   * emitted and that character is read again from the root.
   */
  lemma AmbiguousInText(root: Dict, a: seq<char>, p: seq<char>, k: char, b: seq<char>)
    requires PlainText(root, a) && PlainText(root, b)
    requires p != [] && InnerPath(root, p) && NoPrefixAfterAmbiguous(root, p) && ContinuesNoWalk(root, a, p[0])
    requires Walk(root, p).Some? && Walk(root, p).value.current == Some(k)
    requires Walk(root, p).value.next.Some?
    requires b != [] && !IsLive(Walk(root, p).value.next.value, b[0])
    ensures Composed(root, a + p + b) == ComposeRuns(a) + [k] + ComposeRuns(b)
  {
    var r, J := HeldJamoRun(root, a);
    if Run(root, a).pendingChars == [] {
      AmbiguousAfterJamo(root, a, r, J, p, k, b, ComposeRuns(a));
    } else {
      FlushBeforeEntry(root, a, p[0]);
      FlushedEntry(root, a, p, b, ComposeRuns(a));
      AmbiguousAtStart(root, p, k, b);
    }
  }

  /**
   * `p` walks, along nodes that all have children, to a node holding `k`;
   * when that node is ambiguous, no prefix node follows the first ambiguous
   * node on the way.  Without the last condition the walk can fail to
   * compose back: see SampleTrie.QuirkEntryNotRestored.
   */
  ghost predicate ReversedEntry(root: Dict, p: seq<char>, k: char)
  {
    && p != [] && InnerPath(root, p)
    && Walk(root, p).Some? && Walk(root, p).value.current == Some(k)
    && (Walk(root, p).value.next.None? || NoPrefixAfterAmbiguous(root, p))
  }

  /**
   * A trie that reverses the table: every entry is a ReversedEntry of its
   * key.  This is an assumption about the generated MAP_TO_NORMAL.  The
   * repository checks only the walk, by running normal_to_hfs_all, which
   * walks to every node holding a character with try_compose
   * (src/code_table_test.rs:24-56, 105-123); nothing checks
   * NoPrefixAfterAmbiguous.
   */
  ghost predicate Reverses(table: HfsMap, root: Dict)
  {
    forall k :: k in table ==> ReversedEntry(root, table[k], k)
  }

  /**
   * A single table character survives decomposition followed by
   * composition, over a trie that reverses the table (see Reverses for what
   * that assumes of MAP_TO_NORMAL).
   */
  lemma TableCharRoundTrip(table: HfsMap, root: Dict, k: char)
    requires Reverses(table, root) && k in table
    ensures Composed(root, Decomposed(table, [k])) == [k]
  {
    TableWins(table, k);
    var p := table[k];
    assert ReversedEntry(root, p, k);
    assert [] + p == p;
    EntryComposes(root, [], [], [], p, k);
  }

  /**
   * The mixed round trip: a table character whose entry is a definite match,
   * between two texts HangulRoundTrip restores, is restored with them.
   */
  lemma KeyInTextRoundTrip(table: HfsMap, root: Dict, a: seq<char>, k: char, b: seq<char>)
    requires forall i :: 0 <= i < |a| ==> a[i] !in table
    requires forall i :: 0 <= i < |b| ==> b[i] !in table
    requires NoMergeableJamo(a) && NoMergeableJamo(b)
    requires PlainText(root, Decomposed(table, a)) && PlainText(root, Decomposed(table, b))
    requires k in table && table[k] != [] && InnerPath(root, table[k])
    requires Walk(root, table[k]).Some? && Walk(root, table[k]).value == New(Some(k), None)
    requires ContinuesNoWalk(root, Decomposed(table, a), table[k][0])
    ensures Composed(root, Decomposed(table, a + [k] + b)) == a + [k] + b
  {
    DecomposedAppend(table, a + [k], b);
    DecomposedAppend(table, a, [k]);
    TableWins(table, k);
    LeafInText(root, Decomposed(table, a), table[k], k, Decomposed(table, b));
    DecomposedRunsBack(table, a);
    DecomposedRunsBack(table, b);
  }
}
