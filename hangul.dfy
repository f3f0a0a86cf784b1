/**
 * Arithmetic composition and decomposition of Hangul syllables, src/hangul.rs.
 *
 * The constants and both algorithms are those of section 3.12 "Conjoining
 * Jamo Behavior" of The Unicode Standard.  Every `std::char::from_u32(..)
 * .unwrap()` of the source is a conversion `as char` here, whose
 * well-formedness check is the proof that the unwrap cannot fail.
 */
module Hangul {
  import opened Options

  const SBASE: int := 0xAC00
  const LBASE: int := 0x1100
  const VBASE: int := 0x1161
  const TBASE: int := 0x11A7
  const LCOUNT: int := 19
  const VCOUNT: int := 21
  const TCOUNT: int := 28
  const NCOUNT: int := 588    // VCOUNT * TCOUNT
  const SCOUNT: int := 11172  // LCOUNT * NCOUNT

  /** The two derived counts agree with their definitions. */
  lemma CountsAgree()
    ensures NCOUNT == VCOUNT * TCOUNT
    ensures SCOUNT == LCOUNT * NCOUNT
  {
  }

  /** U+AC00 ..= U+D7A3: the precomposed syllables. */
  function IsHangulPrecomposedSyllable(ch: char): (r: bool)
    ensures r <==> SBASE <= ch as int < SBASE + SCOUNT
  {
    '\U{AC00}' <= ch && ch <= '\U{D7A3}'
  }

  /** The leading, vowel and trailing conjoining jamo (U+11A7 is not one). */
  function IsHangulConjoinableJamo(ch: char): (r: bool)
    ensures r <==> IsLeadingJamo(ch) || IsVowelJamo(ch) || (TBASE < ch as int < TBASE + TCOUNT)
  {
    ('\U{1100}' <= ch && ch <= '\U{1112}')
    || ('\U{1161}' <= ch && ch <= '\U{1175}')
    || ('\U{11A8}' <= ch && ch <= '\U{11C2}')
  }

  // The tests of compose_hangul_jamos, written as the `checked_sub` tests of
  // the source: `x.checked_sub(BASE)` is Some(i) with i < COUNT.

  predicate IsLeadingJamo(ch: char)
  {
    LBASE <= ch as int && ch as int - LBASE < LCOUNT
  }

  predicate IsVowelJamo(ch: char)
  {
    VBASE <= ch as int && ch as int - VBASE < VCOUNT
  }

  /** A syllable of the form LV: its index is a multiple of TCOUNT. */
  predicate IsLVSyllable(ch: char)
  {
    SBASE <= ch as int && ch as int - SBASE < SCOUNT && (ch as int - SBASE) % TCOUNT == 0
  }

  /** U+11A7 ..= U+11C2: a trailing index 0 <= tindex < TCOUNT, including 0. */
  predicate IsTrailingIndex(ch: char)
  {
    TBASE <= ch as int && ch as int - TBASE < TCOUNT
  }

  /** The syllable of form LV made of a leading and a vowel jamo. */
  function ComposeLV(l: char, v: char): (s: char)
    requires IsLeadingJamo(l) && IsVowelJamo(v)
    ensures IsLVSyllable(s) && IsHangulPrecomposedSyllable(s)
    ensures s as int - SBASE == ((l as int - LBASE) * VCOUNT + (v as int - VBASE)) * TCOUNT
  {
    var lindex := l as int - LBASE;
    var vindex := v as int - VBASE;
    (SBASE + (lindex * VCOUNT + vindex) * TCOUNT) as char
  }

  /** The syllable of form LVT made of an LV syllable and a trailing index. */
  function ComposeLVT(lv: char, t: char): (s: char)
    requires IsLVSyllable(lv) && IsTrailingIndex(t)
    ensures IsHangulPrecomposedSyllable(s)
    ensures s as int == lv as int + (t as int - TBASE)
    ensures (s as int - SBASE) / TCOUNT == (lv as int - SBASE) / TCOUNT
  {
    (lv as int + (t as int - TBASE)) as char
  }

  /**
   * Reference definition of the merge loop of compose_hangul_jamos: `last`
   * is the one-character lookback, `rest` the characters not yet read.  A
   * merge consumes the next character without emitting anything; otherwise
   * `last` is emitted and the next character becomes the lookback.
   */
  function ComposeFrom(last: char, rest: seq<char>): (r: seq<char>)
    ensures 1 <= |r| <= 1 + |rest|
    decreases |rest|
  {
    if rest == [] then [last]
    else if IsLeadingJamo(last) && IsVowelJamo(rest[0]) then
      ComposeFrom(ComposeLV(last, rest[0]), rest[1..])
    else if IsLVSyllable(last) && IsTrailingIndex(rest[0]) then
      ComposeFrom(ComposeLVT(last, rest[0]), rest[1..])
    else
      [last] + ComposeFrom(rest[0], rest[1..])
  }

  /** The value compose_hangul_jamos returns for `source`. */
  function ComposedJamos(source: seq<char>): (r: seq<char>)
    ensures r == [] <==> source == []
    ensures |r| <= |source|
  {
    if source == [] then [] else ComposeFrom(source[0], source[1..])
  }

  /**
   * compose_hangul_jamos.  The source keeps `tentative_composed_syllable`
   * beside `last`; it is always None or Some(last), so whichever of the two
   * it pushes is `last`.
   */
  method ComposeHangulJamos(source: seq<char>) returns (result: seq<char>)
    ensures result == ComposedJamos(source)
  {
    if |source| == 0 {
      return [];
    }
    result := [];
    var last := source[0];
    var tentativeComposedSyllable: Option<char> := None;
    for i := 1 to |source|
      invariant tentativeComposedSyllable == None || tentativeComposedSyllable == Some(last)
      invariant result + ComposeFrom(last, source[i..]) == ComposedJamos(source)
    {
      var ch := source[i];
      assert source[i..][0] == ch && source[i..][1..] == source[i + 1..];
      ComposeFromUnfold(last, source[i..]);
      ghost var previous := last;
      // 1. the two current characters are L and V
      if LBASE <= last as int {
        var lindex := last as int - LBASE;
        if lindex < LCOUNT {
          if VBASE <= ch as int {
            var vindex := ch as int - VBASE;
            if vindex < VCOUNT {
              last := (SBASE + (lindex * VCOUNT + vindex) * TCOUNT) as char;
              assert last == ComposeLV(previous, ch);
              tentativeComposedSyllable := Some(last);
              continue;
            }
          }
        }
      }
      // 2. the two current characters are LV and T
      if SBASE <= last as int {
        var sindex := last as int - SBASE;
        if sindex < SCOUNT && sindex % TCOUNT == 0 {
          if TBASE <= ch as int {
            var tindex := ch as int - TBASE;
            if tindex < TCOUNT {
              assert !(IsLeadingJamo(previous) && IsVowelJamo(ch));
              last := (last as int + tindex) as char;
              assert last == ComposeLVT(previous, ch);
              tentativeComposedSyllable := Some(last);
              continue;
            }
          }
        }
      }
      // neither: emit the lookback
      assert !(IsLeadingJamo(last) && IsVowelJamo(ch)) && !(IsLVSyllable(last) && IsTrailingIndex(ch));
      if tentativeComposedSyllable.Some? {
        result := result + [tentativeComposedSyllable.value];
        tentativeComposedSyllable := None;
      } else {
        result := result + [last];
      }
      last := ch;
    }
    if tentativeComposedSyllable.Some? {
      result := result + [tentativeComposedSyllable.value];
    } else {
      result := result + [last];
    }
  }

  /** One step of ComposeFrom, as the three cases of the merge loop. */
  lemma ComposeFromUnfold(last: char, rest: seq<char>)
    requires rest != []
    ensures IsLeadingJamo(last) && IsVowelJamo(rest[0]) ==>
      ComposeFrom(last, rest) == ComposeFrom(ComposeLV(last, rest[0]), rest[1..])
    ensures !(IsLeadingJamo(last) && IsVowelJamo(rest[0])) && IsLVSyllable(last) && IsTrailingIndex(rest[0]) ==>
      ComposeFrom(last, rest) == ComposeFrom(ComposeLVT(last, rest[0]), rest[1..])
    ensures !(IsLeadingJamo(last) && IsVowelJamo(rest[0])) && !(IsLVSyllable(last) && IsTrailingIndex(rest[0])) ==>
      ComposeFrom(last, rest) == [last] + ComposeFrom(rest[0], rest[1..])
  {
  }

  /** decomopse_hangul_syllable. */
  function DecomposeHangulSyllable(syllable: char): (r: seq<char>)
    ensures !IsHangulPrecomposedSyllable(syllable) ==> r == [syllable]
    ensures IsHangulPrecomposedSyllable(syllable) ==>
      && (|r| == 2 || |r| == 3)
      && IsLeadingJamo(r[0]) && IsVowelJamo(r[1])
      && (|r| == 3 ==> TBASE < r[2] as int < TBASE + TCOUNT)
      && syllable as int - SBASE == ((r[0] as int - LBASE) * VCOUNT + (r[1] as int - VBASE)) * TCOUNT
                                   + (if |r| == 3 then r[2] as int - TBASE else 0)
  {
    if !IsHangulPrecomposedSyllable(syllable) then [syllable]
    else
      var sindex := syllable as int - SBASE;
      var l := LBASE + sindex / NCOUNT;
      var v := VBASE + (sindex % NCOUNT) / TCOUNT;
      var t := TBASE + sindex % TCOUNT;
      assert sindex == NCOUNT * (sindex / NCOUNT) + TCOUNT * ((sindex % NCOUNT) / TCOUNT) + sindex % TCOUNT;
      [l as char, v as char] + (if t != TBASE then [t as char] else [])
  }

  /** Every character of a syllable's decomposition is a conjoinable jamo and not a syllable. */
  lemma DecomposedSyllableIsJamo(syllable: char, i: int)
    requires IsHangulPrecomposedSyllable(syllable)
    requires 0 <= i < |DecomposeHangulSyllable(syllable)|
    ensures IsHangulConjoinableJamo(DecomposeHangulSyllable(syllable)[i])
    ensures !IsHangulPrecomposedSyllable(DecomposeHangulSyllable(syllable)[i])
  {
  }

  /** Composing the jamo of one syllable, followed by a character that is not a trailing index, restores the syllable. */
  lemma ComposeSyllableJamos(syllable: char, rest: seq<char>)
    requires IsHangulPrecomposedSyllable(syllable)
    requires rest != [] ==> !IsTrailingIndex(rest[0]) || |DecomposeHangulSyllable(syllable)| == 3
    ensures ComposeFrom(DecomposeHangulSyllable(syllable)[0], DecomposeHangulSyllable(syllable)[1..] + rest)
         == ComposeFrom(syllable, rest)
  {
    var d := DecomposeHangulSyllable(syllable);
    var lv := ComposeLV(d[0], d[1]);
    assert (d[1..] + rest)[0] == d[1];
    assert (d[1..] + rest)[1..] == d[2..] + rest;
    if |d| == 2 {
      assert lv == syllable;
      assert d[2..] + rest == rest;
    } else {
      assert (d[2..] + rest)[0] == d[2] && (d[2..] + rest)[1..] == rest;
      assert ComposeLVT(lv, d[2]) == syllable;
    }
  }

  /** All characters of `s`, each replaced by its Hangul decomposition. */
  function DecomposeAllSyllables(s: seq<char>): seq<char>
    decreases |s|
  {
    if s == [] then [] else DecomposeHangulSyllable(s[0]) + DecomposeAllSyllables(s[1..])
  }

  /** Every character of a decomposed text is a character of the text that is not a syllable, or a conjoinable jamo. */
  lemma {:induction false} DecomposeAllSyllablesChars(s: seq<char>, j: int)
    requires 0 <= j < |DecomposeAllSyllables(s)|
    ensures var c := DecomposeAllSyllables(s)[j];
      !IsHangulPrecomposedSyllable(c) && (c in s || IsHangulConjoinableJamo(c))
    decreases |s|
  {
    var d := DecomposeHangulSyllable(s[0]);
    var rest := DecomposeAllSyllables(s[1..]);
    if j < |d| {
      assert DecomposeAllSyllables(s)[j] == d[j];
      if IsHangulPrecomposedSyllable(s[0]) {
        DecomposedSyllableIsJamo(s[0], j);
      }
    } else {
      assert DecomposeAllSyllables(s)[j] == rest[j - |d|];
      DecomposeAllSyllablesChars(s[1..], j - |d|);
      assert rest[j - |d|] in s[1..] ==> rest[j - |d|] in s;
    }
  }

  /** No jamo the merge loop could combine: no conjoinable jamo and no U+11A7. */
  predicate NoMergeableJamo(s: seq<char>)
  {
    forall i :: 0 <= i < |s| ==> !IsHangulConjoinableJamo(s[i]) && s[i] as int != TBASE
  }

  lemma {:induction false} ComposeFromDecomposed(last: char, s: seq<char>)
    requires !IsLeadingJamo(last)
    requires NoMergeableJamo(s)
    ensures ComposeFrom(last, DecomposeAllSyllables(s)) == [last] + s
    decreases |s|
  {
    if s != [] {
      var d := DecomposeHangulSyllable(s[0]);
      var tail := DecomposeAllSyllables(s[1..]);
      assert NoMergeableJamo(s[1..]) by {
        forall i | 0 <= i < |s[1..]| ensures !IsHangulConjoinableJamo(s[1..][i]) && s[1..][i] as int != TBASE {
          assert s[1..][i] == s[i + 1];
        }
      }
      assert DecomposeAllSyllables(s) == d + tail;
      assert (d + tail)[0] == d[0];
      assert (d + tail)[1..] == d[1..] + tail;
      assert tail != [] ==> !IsTrailingIndex(tail[0]) by {
        if tail != [] {
          var t := DecomposeHangulSyllable(s[1]);
          assert s[1..][0] == s[1];
          assert tail == t + DecomposeAllSyllables(s[2..]);
          assert tail[0] == t[0];
        }
      }
      // `last` is emitted: it is not L, and d[0] is not a trailing index
      assert !IsTrailingIndex(d[0]);
      assert ComposeFrom(last, d + tail) == [last] + ComposeFrom(d[0], d[1..] + tail);
      if IsHangulPrecomposedSyllable(s[0]) {
        ComposeSyllableJamos(s[0], tail);
      } else {
        assert d[1..] + tail == tail;
      }
      ComposeFromDecomposed(s[0], s[1..]);
      assert [s[0]] + s[1..] == s;
    }
  }

  /**
   * Round trip: composing the per-character decomposition of a text without
   * conjoining jamo and without U+11A7 gives the text back.
   */
  lemma {:induction false} ComposeDecomposeRoundTrip(s: seq<char>)
    requires NoMergeableJamo(s)
    ensures ComposedJamos(DecomposeAllSyllables(s)) == s
  {
    if s != [] {
      var d := DecomposeHangulSyllable(s[0]);
      var tail := DecomposeAllSyllables(s[1..]);
      assert NoMergeableJamo(s[1..]) by {
        forall i | 0 <= i < |s[1..]| ensures !IsHangulConjoinableJamo(s[1..][i]) && s[1..][i] as int != TBASE {
          assert s[1..][i] == s[i + 1];
        }
      }
      assert DecomposeAllSyllables(s) == d + tail;
      assert (d + tail)[0] == d[0];
      assert (d + tail)[1..] == d[1..] + tail;
      assert tail != [] ==> !IsTrailingIndex(tail[0]) by {
        if tail != [] {
          var t := DecomposeHangulSyllable(s[1]);
          assert s[1..][0] == s[1];
          assert tail == t + DecomposeAllSyllables(s[2..]);
          assert tail[0] == t[0];
        }
      }
      if IsHangulPrecomposedSyllable(s[0]) {
        ComposeSyllableJamos(s[0], tail);
      } else {
        assert d[1..] + tail == tail;
      }
      ComposeFromDecomposed(s[0], s[1..]);
      assert [s[0]] + s[1..] == s;
    }
  }

  /**
   * Round trip the other way: a run of a leading jamo, a vowel jamo and an
   * optional trailing jamo (U+11A8 ..= U+11C2) composes into one syllable,
   * and decomposing that syllable gives the run back.
   */
  lemma JamoRunRoundTrip(run: seq<char>)
    requires |run| == 2 || |run| == 3
    requires IsLeadingJamo(run[0]) && IsVowelJamo(run[1])
    requires |run| == 3 ==> TBASE < run[2] as int < TBASE + TCOUNT
    ensures |ComposedJamos(run)| == 1
    ensures IsHangulPrecomposedSyllable(ComposedJamos(run)[0])
    ensures DecomposeHangulSyllable(ComposedJamos(run)[0]) == run
  {
    var lv := ComposeLV(run[0], run[1]);
    assert run[1..][0] == run[1] && run[1..][1..] == run[2..];
    var s := if |run| == 3 then ComposeLVT(lv, run[2]) else lv;
    if |run| == 3 {
      assert run[2..][0] == run[2] && run[2..][1..] == [];
    } else {
      assert run[2..] == [];
    }
    assert ComposedJamos(run) == ComposeFrom(lv, run[2..]);
    if |run| == 3 {
      assert ComposeFrom(lv, run[2..]) == ComposeFrom(s, []);
    }
    assert ComposedJamos(run) == [s];
    var d := DecomposeHangulSyllable(s);
    var l, v := run[0] as int - LBASE, run[1] as int - VBASE;
    var t := if |run| == 3 then run[2] as int - TBASE else 0;
    assert s as int - SBASE == (l * VCOUNT + v) * TCOUNT + t;
    IndexSplit(l, v, t);
    assert d[0] == run[0] && d[1] == run[1];
    assert |d| == |run|;
  }

  /** The division and modulo split of a syllable index recovers its three parts. */
  lemma IndexSplit(l: int, v: int, t: int)
    requires 0 <= l < LCOUNT && 0 <= v < VCOUNT && 0 <= t < TCOUNT
    ensures ((l * VCOUNT + v) * TCOUNT + t) / NCOUNT == l
    ensures (((l * VCOUNT + v) * TCOUNT + t) % NCOUNT) / TCOUNT == v
    ensures ((l * VCOUNT + v) * TCOUNT + t) % TCOUNT == t
  {
    var s := (l * VCOUNT + v) * TCOUNT + t;
    assert s == NCOUNT * l + (TCOUNT * v + t);
    assert 0 <= TCOUNT * v + t < NCOUNT;
  }

  /** DecomposeAllSyllables distributes over concatenation. */
  lemma {:induction false} DecomposeAllSyllablesAppend(a: seq<char>, b: seq<char>)
    ensures DecomposeAllSyllables(a + b) == DecomposeAllSyllables(a) + DecomposeAllSyllables(b)
    decreases |a|
  {
    if a == [] {
      assert a + b == b;
    } else {
      assert (a + b)[0] == a[0] && (a + b)[1..] == a[1..] + b;
      DecomposeAllSyllablesAppend(a[1..], b);
      assert DecomposeAllSyllables(a + b) == DecomposeHangulSyllable(a[0]) + DecomposeAllSyllables(a[1..] + b);
    }
  }

  /** A text with no vowel jamo and no trailing index is returned unchanged. */
  lemma {:induction false} ComposeWithoutVowelsOrTrailing(last: char, rest: seq<char>)
    requires forall i :: 0 <= i < |rest| ==> !IsVowelJamo(rest[i]) && !IsTrailingIndex(rest[i])
    ensures ComposeFrom(last, rest) == [last] + rest
    decreases |rest|
  {
    if rest != [] {
      assert !IsVowelJamo(rest[0]) && !IsTrailingIndex(rest[0]);
      ComposeWithoutVowelsOrTrailing(rest[0], rest[1..]);
      assert [rest[0]] + rest[1..] == rest;
    }
  }

  lemma UnchangedWithoutVowelsOrTrailing(source: seq<char>)
    requires forall i :: 0 <= i < |source| ==> !IsVowelJamo(source[i]) && !IsTrailingIndex(source[i])
    ensures ComposedJamos(source) == source
  {
    if source != [] {
      ComposeWithoutVowelsOrTrailing(source[0], source[1..]);
      assert [source[0]] + source[1..] == source;
    }
  }

  /** A character the merge loop neither merges into its lookback nor merges anything into. */
  predicate Inert(x: char)
  {
    !IsLeadingJamo(x) && !IsLVSyllable(x) && !IsVowelJamo(x) && !IsTrailingIndex(x)
  }

  /** An inert character cuts the merge loop in two independent halves. */
  lemma {:induction false} ComposeFromSplit(a: char, u: seq<char>, x: char, v: seq<char>)
    requires Inert(x)
    ensures ComposeFrom(a, u + [x] + v) == ComposeFrom(a, u) + ComposeFrom(x, v)
    decreases |u|
  {
    if u == [] {
      assert u + [x] + v == [x] + v;
      assert ([x] + v)[0] == x && ([x] + v)[1..] == v;
      ComposeFromUnfold(a, [x] + v);
    } else {
      var b := u[0];
      assert (u + [x] + v)[0] == b;
      assert (u + [x] + v)[1..] == u[1..] + [x] + v;
      ComposeFromUnfold(a, u + [x] + v);
      ComposeFromUnfold(a, u);
      if IsLeadingJamo(a) && IsVowelJamo(b) {
        ComposeFromSplit(ComposeLV(a, b), u[1..], x, v);
      } else if IsLVSyllable(a) && IsTrailingIndex(b) {
        ComposeFromSplit(ComposeLVT(a, b), u[1..], x, v);
      } else {
        ComposeFromSplit(b, u[1..], x, v);
      }
    }
  }

  /** Composing a text that ends in an inert character and then a second text is composing each on its own. */
  lemma ComposedJamosAppend(p: seq<char>, q: seq<char>)
    requires p == [] || Inert(p[|p| - 1])
    ensures ComposedJamos(p + q) == ComposedJamos(p) + ComposedJamos(q)
  {
    if p == [] {
      assert p + q == q;
    } else if |p| == 1 {
      var x := p[0];
      assert p == [x] + [] && p + q == [x] + q;
      InertHead(x, q);
      InertHead(x, []);
    } else {
      var a, u, x := p[0], p[1..|p| - 1], p[|p| - 1];
      InertLookback(x, q);
      assert p == [a] + u + [x] + [];
      assert p + q == [a] + u + [x] + q;
      ComposedJamosCut(a, u, x, q);
      ComposedJamosCut(a, u, x, []);
    }
  }

  /** A text that starts with an inert character composes as that character and the composed rest. */
  lemma InertHead(x: char, q: seq<char>)
    requires Inert(x)
    ensures ComposedJamos([x] + q) == [x] + ComposedJamos(q)
  {
    assert ([x] + q)[0] == x && ([x] + q)[1..] == q;
    InertLookback(x, q);
  }

  /** ComposeFromSplit, read on a whole text `[a] + u + [x] + q`. */
  lemma ComposedJamosCut(a: char, u: seq<char>, x: char, q: seq<char>)
    requires Inert(x)
    ensures ComposedJamos([a] + u + [x] + q) == ComposeFrom(a, u) + ComposeFrom(x, q)
  {
    assert ([a] + u + [x] + q)[0] == a && ([a] + u + [x] + q)[1..] == u + [x] + q;
    ComposeFromSplit(a, u, x, q);
  }

  /** Closing a jamo run with an inert character: the run composes on its own, the character is copied. */
  lemma ComposedJamosCloseRun(p: seq<char>, j: seq<char>, c: char)
    requires p == [] || Inert(p[|p| - 1])
    requires Inert(c)
    ensures ComposedJamos(p + j + [c]) == ComposedJamos(p) + ComposedJamos(j) + [c]
  {
    assert p + j + [c] == p + (j + [c]);
    ComposedJamosAppend(p, j + [c]);
    if j == [] {
      assert j + [c] == [c] + [];
      InertHead(c, []);
    } else {
      assert j + [c] == [j[0]] + j[1..] + [c] + [];
      ComposedJamosCut(j[0], j[1..], c, []);
      assert ComposeFrom(c, []) == [c];
    }
  }

  /** An inert lookback never merges: it is emitted as it is. */
  lemma InertLookback(x: char, q: seq<char>)
    requires Inert(x)
    ensures ComposeFrom(x, q) == [x] + ComposedJamos(q)
  {
    if q != [] {
      ComposeFromUnfold(x, q);
    }
  }

  /** The merge rules: L then V combine as in section 3.12, LV then a trailing index add the index. */
  lemma MergeRules(a: char, b: char)
    ensures IsLeadingJamo(a) && IsVowelJamo(b) ==>
      && |ComposedJamos([a, b])| == 1
      && ComposedJamos([a, b])[0] as int == SBASE + ((a as int - LBASE) * VCOUNT + (b as int - VBASE)) * TCOUNT
    ensures IsLVSyllable(a) && IsTrailingIndex(b) ==>
      && |ComposedJamos([a, b])| == 1
      && ComposedJamos([a, b])[0] as int == a as int + (b as int - TBASE)
    ensures !(IsLeadingJamo(a) && IsVowelJamo(b)) && !(IsLVSyllable(a) && IsTrailingIndex(b)) ==>
      ComposedJamos([a, b]) == [a, b]
  {
    assert [a, b][0] == a && [a, b][1..] == [b] && [b][0] == b && [b][1..] == [];
    assert ComposedJamos([a, b]) == ComposeFrom(a, [b]);
    if IsLeadingJamo(a) && IsVowelJamo(b) {
      assert ComposeFrom(a, [b]) == ComposeFrom(ComposeLV(a, b), []);
    } else if IsLVSyllable(a) && IsTrailingIndex(b) {
      assert ComposeFrom(a, [b]) == ComposeFrom(ComposeLVT(a, b), []);
    } else {
      assert ComposeFrom(a, [b]) == [a] + ComposeFrom(b, []);
    }
  }
}
