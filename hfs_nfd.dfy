/**
 * The decomposer and the composer of src/lib.rs, over abstract tables.
 *
 * MAP_TO_HFS (composed character to decomposed string) and MAP_TO_NORMAL
 * (the root of the reverse trie) are generated data; here they are the
 * parameters `table` and `root`, and the lemmas state what they assume of them.
 */
module HfsNfd {
  import opened Options
  import opened ReverseTree
  import opened Hangul

  /** MAP_TO_HFS: a composed character and its HFS+ decomposition. */
  type HfsMap = map<char, seq<char>>

  /** The published shape of the table: every decomposition has 1 to 4 characters. */
  ghost predicate ValidHfsMap(table: HfsMap)
  {
    forall c :: c in table ==> 1 <= |table[c]| <= 4
  }

  // ---------------------------------------------------------------------
  // decompose_into_hfs_nfd
  // ---------------------------------------------------------------------

  /** What one input character becomes: the table first, then Hangul arithmetic, then itself. */
  function DecomposeChar(table: HfsMap, c: char): seq<char>
  {
    if c in table then table[c]
    else if IsHangulPrecomposedSyllable(c) then DecomposeHangulSyllable(c)
    else [c]
  }

  /** The value decompose_into_hfs_nfd returns: every character mapped on its own, in order. */
  function Decomposed(table: HfsMap, s: seq<char>): seq<char>
    decreases |s|
  {
    if s == [] then [] else DecomposeChar(table, s[0]) + Decomposed(table, s[1..])
  }

  /** Decomposition distributes over concatenation: no character looks at its neighbours. */
  lemma {:induction false} DecomposedAppend(table: HfsMap, a: seq<char>, b: seq<char>)
    ensures Decomposed(table, a + b) == Decomposed(table, a) + Decomposed(table, b)
    decreases |a|
  {
    if a == [] {
      assert a + b == b;
    } else {
      assert (a + b)[0] == a[0] && (a + b)[1..] == a[1..] + b;
      DecomposedAppend(table, a[1..], b);
    }
  }

  /**
   * The table wins: a key decomposes to its entry, whether or not it is
   * also a precomposed Hangul syllable.
   */
  lemma TableWins(table: HfsMap, k: char)
    requires k in table
    ensures Decomposed(table, [k]) == table[k]
  {
    assert [k][1..] == [];
    assert Decomposed(table, [k]) == table[k] + [];
  }

  method DecomposeIntoHfsNfd(table: HfsMap, input: seq<char>) returns (result: seq<char>)
    ensures result == Decomposed(table, input)
  {
    result := [];
    for i := 0 to |input|
      invariant result == Decomposed(table, input[..i])
    {
      var c := input[i];
      if c !in table {
        if IsHangulPrecomposedSyllable(c) {
          result := result + DecomposeHangulSyllable(c);
        } else {
          result := result + [c];
        }
      } else {
        result := result + table[c];
      }
      DecomposedAppend(table, input[..i], [c]);
      assert input[..i + 1] == input[..i] + [c];
      assert Decomposed(table, [c]) == DecomposeChar(table, c) by {
        assert [c][1..] == [];
      }
    }
    assert input[..|input|] == input;
  }

  /** With a table of 1 to 4 characters per entry the output is between 1 and 4 times as long. */
  lemma {:induction false} DecomposedLength(table: HfsMap, s: seq<char>)
    requires ValidHfsMap(table)
    ensures |s| <= |Decomposed(table, s)| <= 4 * |s|
    decreases |s|
  {
    if s != [] {
      DecomposedLength(table, s[1..]);
    }
  }

  /** A character that decomposition leaves alone. */
  predicate IsFixed(table: HfsMap, c: char)
  {
    c !in table && !IsHangulPrecomposedSyllable(c)
  }

  /**
   * What the idempotence of decomposition needs of the table: no character of
   * a decomposition is itself a key or a precomposed syllable, and no
   * conjoining jamo (what a syllable decomposes into) is a key.
   */
  ghost predicate ClosedTable(table: HfsMap)
  {
    && (forall k, i :: k in table && 0 <= i < |table[k]| ==> IsFixed(table, table[k][i]))
    && (forall c :: IsHangulConjoinableJamo(c) ==> c !in table)
  }

  lemma {:induction false} DecomposedIsFixed(table: HfsMap, s: seq<char>)
    requires ClosedTable(table)
    ensures forall i :: 0 <= i < |Decomposed(table, s)| ==> IsFixed(table, Decomposed(table, s)[i])
    decreases |s|
  {
    if s != [] {
      DecomposedIsFixed(table, s[1..]);
      var d := DecomposeChar(table, s[0]);
      var rest := Decomposed(table, s[1..]);
      forall i | 0 <= i < |d + rest| ensures IsFixed(table, (d + rest)[i]) {
        if i < |d| {
          assert (d + rest)[i] == d[i];
          if s[0] !in table && IsHangulPrecomposedSyllable(s[0]) {
            DecomposedSyllableIsJamo(s[0], i);
          }
        } else {
          assert (d + rest)[i] == rest[i - |d|];
        }
      }
    }
  }

  lemma {:induction false} DecomposedOfFixed(table: HfsMap, s: seq<char>)
    requires forall i :: 0 <= i < |s| ==> IsFixed(table, s[i])
    ensures Decomposed(table, s) == s
    decreases |s|
  {
    if s != [] {
      assert IsFixed(table, s[0]);
      DecomposedOfFixed(table, s[1..]);
      assert [s[0]] + s[1..] == s;
    }
  }

  /** Decomposing an already decomposed text changes nothing. */
  lemma DecomposedIdempotent(table: HfsMap, s: seq<char>)
    requires ClosedTable(table)
    ensures Decomposed(table, Decomposed(table, s)) == Decomposed(table, s)
  {
    DecomposedIsFixed(table, s);
    DecomposedOfFixed(table, Decomposed(table, s));
  }

  /** Without table entries, decomposition is the Hangul decomposition of every character. */
  lemma {:induction false} DecomposedWithoutTable(table: HfsMap, s: seq<char>)
    requires forall i :: 0 <= i < |s| ==> s[i] !in table
    ensures Decomposed(table, s) == DecomposeAllSyllables(s)
    decreases |s|
  {
    if s != [] {
      assert s[0] !in table;
      DecomposedWithoutTable(table, s[1..]);
    }
  }

  // ---------------------------------------------------------------------
  // compose_from_hfs_nfd
  // ---------------------------------------------------------------------

  /**
   * The local state of compose_from_hfs_nfd between two input characters.
   * `position` is the path from the root to `referencing_dict`; the other
   * fields are the source's variables of the same names.
   */
  datatype ComposerState = ComposerState(
    position: seq<char>,
    pendingChars: seq<char>,
    pendingHangulJamos: seq<char>,
    tentativeDeterminedChars: Option<seq<char>>,
    tentativeComposed: Option<char>,
    result: seq<char>)

  const Start := ComposerState([], [], [], None, None, [])

  /** The characters an optional character stands for. */
  function Chars(o: Option<char>): (r: seq<char>)
    ensures o.None? <==> r == []
    ensures o.Some? ==> r == [o.value]
  {
    match o
    case None => []
    case Some(c) => [c]
  }

  /** `result += compose_hangul_jamos(pending_hangul_jamos); pending_hangul_jamos.clear()` when the run is not empty. */
  function FlushJamos(st: ComposerState): ComposerState
  {
    if st.pendingHangulJamos == [] then st
    else st.(result := st.result + ComposedJamos(st.pendingHangulJamos), pendingHangulJamos := [])
  }

  /** Whether the dead-node branch has something to flush and so retries (`try_again`). */
  predicate HasBuffered(st: ComposerState)
  {
    st.tentativeComposed.Some? || st.pendingChars != []
  }

  /** The flush at the head of the dead-node branch, ending with the cursor at the root. */
  function FlushBuffered(st: ComposerState): (r: ComposerState)
    ensures !HasBuffered(r) && r.position == []
  {
    var st1 :=
      if st.tentativeComposed.Some? then
        var f := FlushJamos(st);
        f.(result := f.result + [st.tentativeComposed.value], tentativeComposed := None, tentativeDeterminedChars := None)
      else st;
    var st2 :=
      if st1.pendingChars != [] then
        var f := FlushJamos(st1);
        f.(result := f.result + f.pendingChars, pendingChars := [])
      else st1;
    st2.(position := [])
  }

  /** A live node: advance on a prefix or an ambiguous node, emit on a leaf. */
  function Advance(st: ComposerState, node: Node, c: char): ComposerState
    requires ShapeOf(node) != Dead
  {
    if ShapeOf(node) == Prefix then
      st.(position := st.position + [c], pendingChars := st.pendingChars + [c])
    else if ShapeOf(node) == Ambiguous then
      var st1 := st.(position := st.position + [c], tentativeComposed := node.current);
      match st.tentativeDeterminedChars
      case Some(existing) => st1.(tentativeDeterminedChars := Some(existing + [c]))
      case None => st1.(tentativeDeterminedChars := Some(st.pendingChars + [c]), pendingChars := [])
    else
      var f := FlushJamos(st);
      f.(pendingChars := [], result := f.result + [node.current.value], tentativeComposed := None,
         tentativeDeterminedChars := None, position := [])
  }

  /** Out of the table with nothing buffered: a jamo joins the pending run, anything else is emitted. */
  function Emit(st: ComposerState, c: char): ComposerState
  {
    if IsHangulConjoinableJamo(c) then st.(pendingHangulJamos := st.pendingHangulJamos + [c])
    else
      var f := FlushJamos(st);
      f.(result := f.result + [c])
  }

  /** Reading `c` at the root with nothing buffered. */
  function StepAtRoot(root: Dict, st: ComposerState, c: char): ComposerState
  {
    if IsLive(root, c) then Advance(st, root[c], c) else Emit(st, c)
  }

  /**
   * One iteration of the outer `for` loop, that is the inner `loop` for one
   * input character.  A dead node with something buffered flushes and reads
   * the same character again from the root (the `continue` of the source);
   * after the flush nothing is buffered, so it is read at most twice.
   */
  function Step(root: Dict, st: ComposerState, c: char): ComposerState
  {
    var dict := Cursor(root, st.position);
    if IsLive(dict, c) then Advance(st, dict[c], c)
    else if HasBuffered(st) then StepAtRoot(root, FlushBuffered(st), c)
    else Emit(FlushBuffered(st), c)
  }

  // The branches of Step, one lemma each.

  /** A dead or missing node with something buffered: flush, then read the same character again from the root. */
  lemma StepRetries(root: Dict, st: ComposerState, c: char)
    requires !IsLive(Cursor(root, st.position), c) && HasBuffered(st)
    ensures Step(root, st, c) == Step(root, FlushBuffered(st), c)
  {
  }

  /** A dead or missing node with nothing buffered: a jamo joins the pending run. */
  lemma StepBuffersJamo(root: Dict, st: ComposerState, c: char)
    requires !IsLive(Cursor(root, st.position), c) && !HasBuffered(st) && IsHangulConjoinableJamo(c)
    ensures Step(root, st, c) == st.(position := [], pendingHangulJamos := st.pendingHangulJamos + [c])
  {
  }

  /** A dead or missing node with nothing buffered: any other character flushes the jamo run and is emitted. */
  lemma StepPassesThrough(root: Dict, st: ComposerState, c: char)
    requires !IsLive(Cursor(root, st.position), c) && !HasBuffered(st) && !IsHangulConjoinableJamo(c)
    ensures Step(root, st, c)
         == st.(position := [], pendingHangulJamos := [], result := st.result + ComposedJamos(st.pendingHangulJamos) + [c])
  {
  }

  /** A prefix node: advance and buffer the character. */
  lemma StepExtendsPrefix(root: Dict, st: ComposerState, c: char)
    requires c in Cursor(root, st.position) && ShapeOf(Cursor(root, st.position)[c]) == Prefix
    ensures Step(root, st, c) == st.(position := st.position + [c], pendingChars := st.pendingChars + [c])
  {
  }

  /**
   * An ambiguous node: advance and make its character the tentative match.
   * The first tentative match of a run takes over the buffered characters;
   * a later one leaves `pendingChars` alone.
   */
  lemma StepRecordsTentative(root: Dict, st: ComposerState, c: char)
    requires c in Cursor(root, st.position) && ShapeOf(Cursor(root, st.position)[c]) == Ambiguous
    ensures var r := Step(root, st, c);
      && r.position == st.position + [c]
      && r.tentativeComposed == Cursor(root, st.position)[c].current
      && r.result == st.result && r.pendingHangulJamos == st.pendingHangulJamos
      && (st.tentativeDeterminedChars.Some? ==>
            r.pendingChars == st.pendingChars && r.tentativeDeterminedChars == Some(st.tentativeDeterminedChars.value + [c]))
      && (st.tentativeDeterminedChars.None? ==>
            r.pendingChars == [] && r.tentativeDeterminedChars == Some(st.pendingChars + [c]))
  {
  }

  /**
   * A leaf: a definite match.  The jamo run is composed and emitted first,
   * then the composed character; every buffer is cleared and the cursor
   * returns to the root.
   */
  lemma StepEmitsDefinite(root: Dict, st: ComposerState, c: char)
    requires c in Cursor(root, st.position) && ShapeOf(Cursor(root, st.position)[c]) == Leaf
    ensures Step(root, st, c)
         == Start.(result := st.result + ComposedJamos(st.pendingHangulJamos) + [Cursor(root, st.position)[c].current.value])
  {
  }

  /** The state after the whole of `input` has been read. */
  function Run(root: Dict, input: seq<char>): ComposerState
    decreases |input|
  {
    if input == [] then Start
    else Step(root, Run(root, input[..|input| - 1]), input[|input| - 1])
  }

  /** Reading one more character is one more Step. */
  lemma RunSnoc(root: Dict, input: seq<char>, c: char)
    ensures Run(root, input + [c]) == Step(root, Run(root, input), c)
  {
    assert (input + [c])[..|input|] == input;
  }

  /** After the loop: the tentative character, then the composed jamo run, then the raw pending characters. */
  function Finish(st: ComposerState): seq<char>
  {
    var r1 := st.result + Chars(st.tentativeComposed);
    var r2 := if st.pendingHangulJamos != [] then r1 + ComposedJamos(st.pendingHangulJamos) else r1;
    if st.pendingChars != [] then r2 + st.pendingChars else r2
  }

  /** The value compose_from_hfs_nfd returns. */
  function Composed(root: Dict, input: seq<char>): seq<char>
  {
    Finish(Run(root, input))
  }

  /**
   * The snippet the source repeats at every flush point: compose the pending
   * jamo run, append it to the result and clear it.
   */
  method FlushJamoRun(result: seq<char>, pendingHangulJamos: seq<char>) returns (result': seq<char>, jamos': seq<char>)
    ensures jamos' == []
    ensures result' == result + ComposedJamos(pendingHangulJamos)
  {
    result', jamos' := result, pendingHangulJamos;
    if pendingHangulJamos != [] {
      var composed := ComposeHangulJamos(pendingHangulJamos);
      result' := result' + composed;
      jamos' := [];
    }
  }

  /**
   * The head of the dead-node branch: emit the tentative character, then the
   * raw pending characters, each after the composed jamo run, and report
   * whether anything was flushed (`try_again`).
   */
  method FlushBufferedChars(ghost position: seq<char>, pendingChars: seq<char>, pendingHangulJamos: seq<char>,
                            ghost tentativeDeterminedChars: Option<seq<char>>, tentativeComposed: Option<char>,
                            result: seq<char>)
    returns (pendingChars': seq<char>, pendingHangulJamos': seq<char>,
             ghost tentativeDeterminedChars': Option<seq<char>>, tentativeComposed': Option<char>,
             result': seq<char>, tryAgain: bool)
    ensures var f := FlushBuffered(ComposerState([], pendingChars, pendingHangulJamos, None, tentativeComposed, result));
      && pendingChars' == f.pendingChars && pendingHangulJamos' == f.pendingHangulJamos
      && tentativeComposed' == f.tentativeComposed && result' == f.result
      && tryAgain == (tentativeComposed.Some? || pendingChars != [])
    ensures var st := ComposerState(position, pendingChars, pendingHangulJamos, tentativeDeterminedChars, tentativeComposed, result);
      && ComposerState([], pendingChars', pendingHangulJamos', tentativeDeterminedChars', tentativeComposed', result')
         == FlushBuffered(st)
      && tryAgain == HasBuffered(st)
  {
    pendingChars', pendingHangulJamos', result' := pendingChars, pendingHangulJamos, result;
    tentativeDeterminedChars', tentativeComposed' := tentativeDeterminedChars, tentativeComposed;
    tryAgain := false;
    if tentativeComposed'.Some? {
      var ch := tentativeComposed'.value;
      result', pendingHangulJamos' := FlushJamoRun(result', pendingHangulJamos');
      result' := result' + [ch];
      tentativeComposed' := None;
      tryAgain := true;
      tentativeDeterminedChars' := None;
    }
    if pendingChars' != [] {
      result', pendingHangulJamos' := FlushJamoRun(result', pendingHangulJamos');
      result' := result' + pendingChars';
      tryAgain := true;
      pendingChars' := [];
    }
  }

  /** After the last input character: emit the tentative character, the composed jamo run and the raw pending characters. */
  method EmitRemaining(ghost position: seq<char>, pendingChars: seq<char>, pendingHangulJamos: seq<char>,
                       ghost tentativeDeterminedChars: Option<seq<char>>, tentativeComposed: Option<char>,
                       result: seq<char>)
    returns (result': seq<char>)
    ensures result' == Finish(ComposerState(position, pendingChars, pendingHangulJamos, tentativeDeterminedChars, tentativeComposed, result))
  {
    result' := result;
    if tentativeComposed.Some? {
      result' := result' + [tentativeComposed.value];
    }
    if pendingHangulJamos != [] {
      var composed := ComposeHangulJamos(pendingHangulJamos);
      result' := result' + composed;
    }
    if pendingChars != [] {
      result' := result' + pendingChars;
    }
  }

  method ComposeFromHfsNfd(root: Dict, input: seq<char>) returns (result: seq<char>)
    ensures result == Composed(root, input)
  {
    result := [];
    var referencingDict := root;
    var pendingChars: seq<char> := [];
    var pendingHangulJamos: seq<char> := [];
    // written but never read for output
    ghost var tentativeDeterminedChars: Option<seq<char>> := None;
    var tentativeComposed: Option<char> := None;
    ghost var position: seq<char> := [];

    for i := 0 to |input|
      invariant ComposerState(position, pendingChars, pendingHangulJamos, tentativeDeterminedChars, tentativeComposed, result)
                == Run(root, input[..i])
      invariant referencingDict == Cursor(root, position)
      invariant tentativeDeterminedChars.Some? <==> tentativeComposed.Some?
    {
      var c := input[i];
      assert input[..i + 1][..i] == input[..i];
      ghost var target := Run(root, input[..i + 1]);
      while true
        invariant Step(root, ComposerState(position, pendingChars, pendingHangulJamos, tentativeDeterminedChars, tentativeComposed, result), c)
                  == target
        invariant referencingDict == Cursor(root, position)
        invariant tentativeDeterminedChars.Some? <==> tentativeComposed.Some?
        decreases if tentativeComposed.Some? || pendingChars != [] then 1 else 0
      {
        ghost var before := ComposerState(position, pendingChars, pendingHangulJamos, tentativeDeterminedChars, tentativeComposed, result);
        if c !in referencingDict || (referencingDict[c].current.None? && referencingDict[c].next.None?) {
          assert !IsLive(Cursor(root, before.position), c);
          var tryAgain;
          pendingChars, pendingHangulJamos, tentativeDeterminedChars, tentativeComposed, result, tryAgain :=
            FlushBufferedChars(position, pendingChars, pendingHangulJamos, tentativeDeterminedChars, tentativeComposed, result);
          referencingDict := root;
          position := [];
          if tryAgain {
            StepRetries(root, before, c);
            continue;
          }
          // out of the table
          if IsHangulConjoinableJamo(c) {
            StepBuffersJamo(root, before, c);
            pendingHangulJamos := pendingHangulJamos + [c];
          } else {
            StepPassesThrough(root, before, c);
            result, pendingHangulJamos := FlushJamoRun(result, pendingHangulJamos);
            result := result + [c];
          }
          assert ComposerState(position, pendingChars, pendingHangulJamos, tentativeDeterminedChars, tentativeComposed, result) == Step(root, before, c);
          break;
        }
        var node := referencingDict[c];
        WalkExtends(root, position, c);
        if node.current.None? {
          // a prefix of longer decompositions
          StepExtendsPrefix(root, before, c);
          referencingDict := node.next.value;
          position := position + [c];
          pendingChars := pendingChars + [c];
          assert ComposerState(position, pendingChars, pendingHangulJamos, tentativeDeterminedChars, tentativeComposed, result) == Step(root, before, c);
          break;
        } else if node.next.Some? {
          // ambiguous: a tentative match that a longer one may replace
          StepRecordsTentative(root, before, c);
          referencingDict := node.next.value;
          position := position + [c];
          if tentativeComposed.Some? {  // tentative_determined_chars is Some
            tentativeDeterminedChars := Some(tentativeDeterminedChars.value + [c]);
          } else {
            pendingChars := pendingChars + [c];
            tentativeDeterminedChars := Some(pendingChars);
            pendingChars := [];
          }
          tentativeComposed := Some(node.current.value);
          assert ComposerState(position, pendingChars, pendingHangulJamos, tentativeDeterminedChars, tentativeComposed, result) == Step(root, before, c);
          break;
        } else {
          // a definite match
          StepEmitsDefinite(root, before, c);
          result, pendingHangulJamos := FlushJamoRun(result, pendingHangulJamos);
          pendingChars := [];
          result := result + [node.current.value];
          tentativeComposed := None;
          tentativeDeterminedChars := None;
          referencingDict := root;
          position := [];
          assert ComposerState(position, pendingChars, pendingHangulJamos, tentativeDeterminedChars, tentativeComposed, result) == Step(root, before, c);
          break;
        }
      }
    }
    assert input[..|input|] == input;
    result := EmitRemaining(position, pendingChars, pendingHangulJamos, tentativeDeterminedChars, tentativeComposed, result);
  }
}
