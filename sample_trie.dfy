/**
 * A few entries of MAP_TO_HFS and MAP_TO_NORMAL, the decompositions the
 * repository's own tests look up (src/code_table_test.rs, src/lib.rs), and
 * what the model computes on them: the walks, the longest match with its
 * fallback, and the emission order at the end of the input.
 */
module SampleTrie {
  import opened Options
  import opened ReverseTree
  import opened Hangul
  import opened HfsNfd
  import opened ComposeProperties

  /** MAP_TO_HFS restricted to U+00E9, U+00F3, U+30DD and the capital alpha with prosgegrammeni family. */
  const Table: HfsMap := map[
    '\U{00E9}' := "e\U{0301}",
    '\U{00F3}' := "o\U{0301}",
    '\U{30DD}' := "\U{30DB}\U{309A}",
    '\U{1FBC}' := "\U{0391}\U{0345}",
    '\U{1F88}' := "\U{0391}\U{0345}\U{0313}",
    '\U{1F8A}' := "\U{0391}\U{0345}\U{0313}\U{0300}",
    '\U{1F8C}' := "\U{0391}\U{0345}\U{0313}\U{0301}"]

  /** The nodes below U+0391 U+0345 U+0313: two leaves. */
  const AlphaPsili: Dict := map[
    '\U{0300}' := New(Some('\U{1F8A}'), None),
    '\U{0301}' := New(Some('\U{1F8C}'), None)]

  /** The nodes below U+0391: U+0345 is ambiguous, and so is U+0313 after it. */
  const Alpha: Dict := map[
    '\U{0345}' := New(Some('\U{1FBC}'), Some(map['\U{0313}' := New(Some('\U{1F88}'), Some(AlphaPsili))]))]

  /** MAP_TO_NORMAL restricted to the same entries. */
  const Root: Dict := map[
    'e' := New(None, Some(map['\U{0301}' := New(Some('\U{00E9}'), None)])),
    'o' := New(None, Some(map['\U{0301}' := New(Some('\U{00F3}'), None)])),
    '\U{30DB}' := New(None, Some(map['\U{309A}' := New(Some('\U{30DD}'), None)])),
    '\U{0391}' := New(None, Some(Alpha))]

  /** The walks of hfs_to_normal_fixed: each decomposition reaches its composed character. */
  lemma SampleWalks()
    ensures Walk(Root, "\U{30DB}\U{309A}") == Some(New(Some('\U{30DD}'), None))
    ensures Walk(Root, "\U{0391}\U{0345}").Some? && Walk(Root, "\U{0391}\U{0345}").value.current == Some('\U{1FBC}')
    ensures Walk(Root, "\U{0391}\U{0345}\U{0313}").Some?
    ensures Walk(Root, "\U{0391}\U{0345}\U{0313}").value.current == Some('\U{1F88}')
    ensures Walk(Root, "\U{0391}\U{0345}\U{0313}\U{0300}") == Some(New(Some('\U{1F8A}'), None))
    ensures Walk(Root, "\U{0391}\U{0345}\U{0313}\U{0301}") == Some(New(Some('\U{1F8C}'), None))
    ensures Walk(Root, "\U{0391}\U{0345}\U{0342}") == None
  {
    assert "\U{30DB}\U{309A}"[1..] == "\U{309A}";
    assert "\U{0391}\U{0345}"[1..] == "\U{0345}";
    assert "\U{0391}\U{0345}\U{0313}"[1..] == "\U{0345}\U{0313}";
    assert "\U{0345}\U{0313}"[1..] == "\U{0313}";
    assert "\U{0391}\U{0345}\U{0313}\U{0300}"[1..] == "\U{0345}\U{0313}\U{0300}";
    assert "\U{0345}\U{0313}\U{0300}"[1..] == "\U{0313}\U{0300}";
    assert "\U{0313}\U{0300}"[1..] == "\U{0300}";
    assert "\U{0391}\U{0345}\U{0313}\U{0301}"[1..] == "\U{0345}\U{0313}\U{0301}";
    assert "\U{0345}\U{0313}\U{0301}"[1..] == "\U{0313}\U{0301}";
    assert "\U{0313}\U{0301}"[1..] == "\U{0301}";
    assert "\U{0391}\U{0345}\U{0342}"[1..] == "\U{0345}\U{0342}";
    assert "\U{0345}\U{0342}"[1..] == "\U{0342}";
  }

  /** "Pokémon" with a precomposed U+00E9, and the same word with U+0065 U+0301. */
  const PokemonNfc: string := "Pok\U{00E9}mon"
  const PokemonHfs: string := "Poke\U{0301}mon"

  /** decompose_into_hfs_nfd of "Pokémon" (the doc example of src/lib.rs). */
  lemma PokemonDecomposes()
    ensures Decomposed(Table, "Pok\U{00E9}mon") == "Poke\U{0301}mon"
  {
    DecomposedAppend(Table, "Pok", "\U{00E9}mon");
    assert "Pok\U{00E9}mon" == "Pok" + "\U{00E9}mon";
    assert Decomposed(Table, "Pok") == "Pok" by {
      DecomposedOfFixed(Table, "Pok");
    }
    assert Decomposed(Table, "mon") == "mon" by {
      DecomposedOfFixed(Table, "mon");
    }
    assert "\U{00E9}mon"[1..] == "mon";
  }

  /**
   * compose_from_hfs_nfd of "Poke" U+0301 "mon" is "Pokémon": a definite
   * match in the middle of the text.  Each "o" starts the entry of U+00F3,
   * so the composer buffers it and, at "k" or "n", emits it raw.
   */
  lemma PokemonComposes()
    ensures Composed(Root, PokemonHfs) == PokemonNfc
  {
    PokemonPieces();
    LeafInText(Root, "Pok", "e\U{0301}", '\U{00E9}', "mon");
    ComposeRunsNoJamo("Pok");
    ComposeRunsNoJamo("mon");
    PokemonSpelling();
  }

  lemma PokemonPieces()
    ensures PlainText(Root, "Pok") && PlainText(Root, "mon")
    ensures ContinuesNoWalk(Root, "Pok", 'e')
    ensures InnerPath(Root, "e\U{0301}")
    ensures Walk(Root, "e\U{0301}") == Some(New(Some('\U{00E9}'), None))
  {
    LatinKanaReversed();
    PokPlain();
    MonPlain();
    PokContinuesNoWalk();
  }

  lemma PokPlain()
    ensures PlainText(Root, "Pok")
  {
    PlainFromFirstLevel(Root, "Pok");
  }

  lemma MonPlain()
    ensures PlainText(Root, "mon")
  {
    PlainFromFirstLevel(Root, "mon");
  }

  /** No suffix of "Pok" walks anywhere "e" continues. */
  lemma PokContinuesNoWalk()
    ensures ContinuesNoWalk(Root, "Pok", 'e')
  {
    assert "Pok"[0..] == "Pok" && "Pok"[1..] == "ok" && "Pok"[2..] == "k";
    assert Walk(Root, "Pok") == None && Walk(Root, "k") == None;
    assert Walk(Root, "ok") == None by {
      assert "ok"[1..] == "k";
      assert Root['o'].next == Some(map['\U{0301}' := New(Some('\U{00F3}'), None)]);
    }
  }

  lemma PokemonSpelling()
    ensures "Pok" + "e\U{0301}" + "mon" == PokemonHfs
    ensures "Pok" + ['\U{00E9}'] + "mon" == PokemonNfc
  {
  }

  /** Composed text of letters that start entries is left alone, as for "Immutable" in src/lib.rs. */
  lemma MotionUnchanged()
    ensures Composed(Root, "motion") == "motion"
  {
    MotionPlain();
    ComposedPassesThrough(Root, "motion");
  }

  lemma MotionPlain()
    ensures PlainText(Root, "motion")
  {
    PlainFromFirstLevel(Root, "motion");
  }

  /**
   * A Latin letter that starts an entry, followed by a Hangul syllable:
   * "o" U+D558 decomposes to "o" U+1112 U+1161 and composes back.
   */
  lemma MixedRoundTrip()
    ensures Decomposed(Table, "o\U{D558}") == "o\U{1112}\U{1161}"
    ensures Composed(Root, "o\U{1112}\U{1161}") == "o\U{D558}"
  {
    MixedDecomposes();
    MixedPlain();
    HangulRoundTrip(Table, Root, "o\U{D558}");
  }

  lemma MixedDecomposes()
    ensures Decomposed(Table, "o\U{D558}") == "o\U{1112}\U{1161}"
  {
    var s := "o\U{D558}";
    assert DecomposeHangulSyllable('\U{D558}') == "\U{1112}\U{1161}";
    assert s[1..] == "\U{D558}" && s[1..][1..] == [];
  }

  lemma MixedPlain()
    ensures PlainText(Root, "o\U{1112}\U{1161}")
  {
    PlainFromFirstLevel(Root, "o\U{1112}\U{1161}");
  }

  /**
   * U+0391 U+0345 is ambiguous; U+0342 continues no entry after it, so
   * U+1FBC is emitted and U+0342 is read again from the root.
   */
  lemma AlphaFallsBack()
    ensures Composed(Root, "\U{0391}\U{0345}\U{0342}") == "\U{1FBC}\U{0342}"
  {
    var p := "\U{0391}\U{0345}";
    AlphaPieces();
    AmbiguousInText(Root, [], p, '\U{1FBC}', "\U{0342}");
    ComposeRunsNoJamo("\U{0342}");
    assert [] + p + "\U{0342}" == "\U{0391}\U{0345}\U{0342}";
    assert ComposeRuns([]) + ['\U{1FBC}'] + "\U{0342}" == "\U{1FBC}\U{0342}";
  }

  lemma AlphaPieces()
    ensures InnerPath(Root, "\U{0391}\U{0345}") && NoPrefixAfterAmbiguous(Root, "\U{0391}\U{0345}")
    ensures Walk(Root, "\U{0391}\U{0345}") == Some(Alpha['\U{0345}'])
    ensures PlainText(Root, "\U{0342}")
  {
    var p := "\U{0391}\U{0345}";
    assert p[..1] == "\U{0391}" && p[1..] == "\U{0345}";
    PlainFromFirstLevel(Root, "\U{0342}");
  }

  /** The three entries outside the alpha family. */
  lemma LatinKanaReversed()
    ensures InnerPath(Root, "e\U{0301}")
    ensures Walk(Root, "e\U{0301}") == Some(New(Some('\U{00E9}'), None))
    ensures ReversedEntry(Root, "e\U{0301}", '\U{00E9}')
    ensures ReversedEntry(Root, "o\U{0301}", '\U{00F3}')
    ensures ReversedEntry(Root, "\U{30DB}\U{309A}", '\U{30DD}')
  {
    assert "e\U{0301}"[..1] == "e";
    assert "e\U{0301}"[1..] == "\U{0301}";
    assert "o\U{0301}"[..1] == "o";
    assert "o\U{0301}"[1..] == "\U{0301}";
    assert "\U{30DB}\U{309A}"[..1] == "\U{30DB}";
    assert "\U{30DB}\U{309A}"[1..] == "\U{309A}";
  }

  /** The entries of length two and three of the alpha family; both end at ambiguous nodes. */
  lemma AlphaShortReversed()
    ensures ReversedEntry(Root, "\U{0391}\U{0345}", '\U{1FBC}')
    ensures ReversedEntry(Root, "\U{0391}\U{0345}\U{0313}", '\U{1F88}')
  {
    SampleWalks();
    assert "\U{0391}\U{0345}"[..1] == "\U{0391}";
    assert "\U{0391}\U{0345}\U{0313}"[..1] == "\U{0391}";
    assert "\U{0391}\U{0345}\U{0313}"[..2] == "\U{0391}\U{0345}";
  }

  /** The two leaves of the alpha family. */
  lemma AlphaLeavesReversed()
    ensures ReversedEntry(Root, "\U{0391}\U{0345}\U{0313}\U{0300}", '\U{1F8A}')
    ensures ReversedEntry(Root, "\U{0391}\U{0345}\U{0313}\U{0301}", '\U{1F8C}')
  {
    SampleWalks();
    assert "\U{0391}\U{0345}\U{0313}\U{0300}"[..1] == "\U{0391}";
    assert "\U{0391}\U{0345}\U{0313}\U{0300}"[..2] == "\U{0391}\U{0345}";
    assert "\U{0391}\U{0345}\U{0313}\U{0300}"[..3] == "\U{0391}\U{0345}\U{0313}";
    assert "\U{0391}\U{0345}\U{0313}\U{0301}"[..1] == "\U{0391}";
    assert "\U{0391}\U{0345}\U{0313}\U{0301}"[..2] == "\U{0391}\U{0345}";
    assert "\U{0391}\U{0345}\U{0313}\U{0301}"[..3] == "\U{0391}\U{0345}\U{0313}";
  }

  /** The sample trie reverses the sample table (normal_to_hfs_all and hfs_to_normal_fixed on these entries). */
  lemma SampleReverses()
    ensures Reverses(Table, Root)
  {
    LatinKanaReversed();
    AlphaShortReversed();
    AlphaLeavesReversed();
  }

  /** Every sample character survives decomposition followed by composition. */
  lemma SampleRoundTrips(k: char)
    requires k in Table
    ensures Composed(Root, Decomposed(Table, [k])) == [k]
  {
    SampleReverses();
    TableCharRoundTrip(Table, Root, k);
  }

  /** U+1112 U+1161 composes to the syllable U+D558. */
  lemma HaComposes()
    ensures ComposedJamos("\U{1112}\U{1161}") == "\U{D558}"
  {
    var h := "\U{1112}\U{1161}";
    assert h[1..] == "\U{1161}" && h[1..][1..] == [];
    assert ComposeLV('\U{1112}', '\U{1161}') == '\U{D558}';
  }

  /** Reading U+1112 U+1161 only buffers the jamo run. */
  lemma HaRun()
    ensures Run(Root, "\U{1112}\U{1161}") == Start.(pendingHangulJamos := "\U{1112}\U{1161}")
  {
    var h := "\U{1112}\U{1161}";
    assert OutsideTable(Root, h[0]) && OutsideTable(Root, h[1]);
    RunOutsideTable(Root, h);
    HaIsOneRun();
  }

  lemma HaIsOneRun()
    ensures SplitJamoTail("\U{1112}\U{1161}") == ([], "\U{1112}\U{1161}")
  {
    var h := "\U{1112}\U{1161}";
    assert h[..1] == "\U{1112}" && h[..1][..0] == [];
    assert SplitJamoTail(h[..1]) == ([], "\U{1112}");
    assert "\U{1112}" + [h[1]] == h;
  }

  /**
   * The order at the end of the input: a tentative match still pending
   * when the input ends is emitted BEFORE the jamo run that was buffered
   * ahead of it, so U+1112 U+1161 U+0391 U+0345 composes to U+1FBC U+D558.
   */
  lemma EndOfInputOrder()
    ensures Composed(Root, "\U{1112}\U{1161}\U{0391}\U{0345}") == "\U{1FBC}\U{D558}"
  {
    var h, p := "\U{1112}\U{1161}", "\U{0391}\U{0345}";
    HaRun();
    AlphaShortReversed();
    EntryComposes(Root, h, [], h, p, '\U{1FBC}');
    HaComposes();
    assert h + p == "\U{1112}\U{1161}\U{0391}\U{0345}";
    assert [] + ['\U{1FBC}'] + "\U{D558}" == "\U{1FBC}\U{D558}";
  }

  /**
   * A trie with a prefix node between two ambiguous ones: "ab" is X,
   * "abc" only continues, "abcd" is Y and "abcde" is Z.
   */
  const Quirk: Dict := map[
    'a' := New(None, Some(map[
      'b' := New(Some('X'), Some(map[
        'c' := New(None, Some(map[
          'd' := New(Some('Y'), Some(map['e' := New(Some('Z'), None)]))]))]))]))]

  lemma QuirkAb()
    ensures Run(Quirk, "ab") == Start.(position := "ab", tentativeComposed := Some('X'), tentativeDeterminedChars := Some("ab"))
  {
    assert "ab"[..1] == "a" && "a"[..0] == [];
    assert Run(Quirk, "a") == Start.(position := "a", pendingChars := "a");
    RunSnoc(Quirk, "a", 'b');
    assert "a" + ['b'] == "ab";
  }

  lemma QuirkAbc()
    ensures Run(Quirk, "abc") == Start.(position := "abc", pendingChars := "c", tentativeComposed := Some('X'), tentativeDeterminedChars := Some("ab"))
  {
    QuirkAb();
    RunSnoc(Quirk, "ab", 'c');
    assert "ab" + ['c'] == "abc";
    assert "ab"[..1] == "a" && "ab"[1..] == "b";
    StepExtendsPrefix(Quirk, Run(Quirk, "ab"), 'c');
  }

  lemma QuirkAbcd()
    ensures Run(Quirk, "abcd") == Start.(position := "abcd", pendingChars := "c", tentativeComposed := Some('Y'), tentativeDeterminedChars := Some("abd"))
  {
    QuirkAbc();
    RunSnoc(Quirk, "abc", 'd');
    assert "abc" + ['d'] == "abcd";
    assert "abc"[..1] == "a" && "abc"[1..] == "bc" && "bc"[1..] == "c";
    StepRecordsTentative(Quirk, Run(Quirk, "abc"), 'd');
    assert "ab" + ['d'] == "abd";
  }

  /**
   * Why Reverses asks for NoPrefixAfterAmbiguous: "abcd" walks to Y, yet
   * the composer emits "Yc" for it, since the "c" read at the prefix node
   * stays buffered after the tentative match Y is taken.
   */
  lemma QuirkEntryNotRestored()
    ensures Walk(Quirk, "abcd").Some? && Walk(Quirk, "abcd").value.current == Some('Y')
    ensures Composed(Quirk, "abcd") == "Yc"
  {
    assert "abcd"[1..] == "bcd" && "bcd"[1..] == "cd" && "cd"[1..] == "d";
    QuirkAbcd();
    assert [] + Chars(Some('Y')) + "c" == "Yc";
  }

  /**
   * The order between two tentative matches: the character read at the
   * prefix node between them stays buffered when the later one is taken,
   * so it is emitted after Y: "abcdq" composes to "Ycq".
   */
  lemma BufferedBetweenTentatives()
    ensures Composed(Quirk, "abcdq") == "Ycq"
  {
    QuirkAbcd();
    RunSnoc(Quirk, "abcd", 'q');
    assert "abcd" + ['q'] == "abcdq";
    QuirkFallsBack();
  }

  lemma QuirkFallsBack()
    ensures Step(Quirk, Start.(position := "abcd", pendingChars := "c", tentativeComposed := Some('Y'),
                               tentativeDeterminedChars := Some("abd")), 'q')
         == Start.(result := "Ycq")
  {
    var st := Start.(position := "abcd", pendingChars := "c", tentativeComposed := Some('Y'),
                     tentativeDeterminedChars := Some("abd"));
    assert "abcd"[..1] == "a" && "abcd"[1..] == "bcd" && "bcd"[1..] == "cd" && "cd"[1..] == "d";
    StepFallsBack(Quirk, st, 'q');
    assert [] + ComposedJamos([]) + Chars(Some('Y')) + "c" == "Yc";
    StepPassesThrough(Quirk, Start.(result := "Yc"), 'q');
    assert "Yc" + ComposedJamos([]) + ['q'] == "Ycq";
  }
}
