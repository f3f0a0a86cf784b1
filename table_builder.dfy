/**
 * FetchingDecompositionHTMLParser (fetch_update_table.py): the HTML parser
 * callbacks that read Apple's decomposition table and build the two
 * dictionaries the crate's tables are generated from.
 *
 * A cell holding one code point names the character to be decomposed; the
 * next cell holding two or more code points is its decomposition.  The
 * decomposition is stored in `encodingDic` under the pending character and
 * inserted into the reverse trie `decodingDic`.  The nested dictionaries of
 * the trie are represented by their nodes addressed by path: the key `p`
 * stands for the node reached by walking `p[0]` at the top level and then
 * `p[1..]` through "next", and the value is that node's "current".
 */
module TableBuilder {
  import opened Options

  /** A Python one-character string: any code point, surrogates included. */
  type CodePoint = x: int | 0 <= x < 0x11_0000

  /** Nodes of the reverse trie, by path, with their "current". */
  type Trie = map<seq<CodePoint>, Option<seq<CodePoint>>>

  // ---------------------------------------------------------------------
  // Tag names
  // ---------------------------------------------------------------------

  function LowerChar(c: char): (r: char)
    ensures 'A' <= c <= 'Z' ==> 'a' <= r <= 'z' && r as int - c as int == 32
    ensures !('A' <= c <= 'Z') ==> r == c
  {
    if 'A' <= c <= 'Z' then (c as int + 32) as char else c
  }

  /** str.lower() on ASCII letters. */
  function Lower(s: string): (r: string)
    ensures |r| == |s| && forall i :: 0 <= i < |s| ==> r[i] == LowerChar(s[i])
  {
    seq(|s|, i requires 0 <= i < |s| => LowerChar(s[i]))
  }

  // ---------------------------------------------------------------------
  // Tokens: data.split(" ") and the two regular expressions
  // ---------------------------------------------------------------------

  /** The pieces joined back with single spaces. */
  function JoinSpaces(pieces: seq<string>): string
    requires |pieces| >= 1
    decreases |pieces|
  {
    if |pieces| == 1 then pieces[0] else pieces[0] + " " + JoinSpaces(pieces[1..])
  }

  /**
   * str.split(" "): the text between single spaces, empty pieces included.
   * The first piece is the text before the first space.
   */
  function SplitSpaces(s: string): (r: seq<string>)
    ensures |r| >= 1
    ensures forall i :: 0 <= i < |r| ==> ' ' !in r[i]
    ensures JoinSpaces(r) == s
    ensures r[0] <= s && (|r[0]| == |s| || s[|r[0]|] == ' ')
    decreases |s|
  {
    if s == [] then [""]
    else
      var rest := SplitSpaces(s[1..]);
      if s[0] == ' ' then
        assert s == [' '] + s[1..];
        [""] + rest
      else
        var r := [[s[0]] + rest[0]] + rest[1..];
        assert r[1..] == rest[1..];
        assert ' ' !in [s[0]] + rest[0];
        JoinExtendsHead(s[0], rest);
        assert s == [s[0]] + s[1..];
        r
  }

  /** Extending the first piece extends the joined text. */
  lemma {:induction false} JoinExtendsHead(c: char, pieces: seq<string>)
    requires |pieces| >= 1
    ensures JoinSpaces([[c] + pieces[0]] + pieces[1..]) == [c] + JoinSpaces(pieces)
  {
    var r := [[c] + pieces[0]] + pieces[1..];
    if |pieces| == 1 {
      assert r == [[c] + pieces[0]];
    } else {
      var x, tail := pieces[0], JoinSpaces(pieces[1..]);
      assert JoinSpaces(r) == ([c] + x) + " " + tail by {
        assert |r| > 1 && r[0] == [c] + x && r[1..] == pieces[1..];
      }
      assert ([c] + x) + " " + tail == [c] + (x + " " + tail);
    }
  }

  /** Splitting a join of space-free pieces gives the pieces back. */
  lemma {:induction false} SplitJoin(pieces: seq<string>)
    requires |pieces| >= 1
    requires forall i :: 0 <= i < |pieces| ==> ' ' !in pieces[i]
    ensures SplitSpaces(JoinSpaces(pieces)) == pieces
    decreases |pieces|
  {
    if |pieces| == 1 {
      SplitWithoutSpace(pieces[0]);
    } else {
      SplitJoin(pieces[1..]);
      SplitBeforeSpace(pieces[0], JoinSpaces(pieces[1..]));
      assert pieces == [pieces[0]] + pieces[1..];
    }
  }

  lemma {:induction false} SplitWithoutSpace(t: string)
    requires ' ' !in t
    ensures SplitSpaces(t) == [t]
    decreases |t|
  {
    if t != [] {
      assert ' ' !in t[1..];
      SplitWithoutSpace(t[1..]);
      assert [t[0]] + t[1..] == t;
    }
  }

  lemma {:induction false} SplitBeforeSpace(t: string, u: string)
    requires ' ' !in t
    ensures SplitSpaces(t + " " + u) == [t] + SplitSpaces(u)
    decreases |t|
  {
    var s := t + " " + u;
    if t == [] {
      assert s == [' '] + u && s[1..] == u;
    } else {
      assert ' ' !in t[1..];
      SplitBeforeSpace(t[1..], u);
      SpacedTail(t, u);
      var rest := SplitSpaces(s[1..]);
      assert rest[0] == t[1..] && rest[1..] == SplitSpaces(u);
    }
  }

  lemma SpacedTail(t: string, u: string)
    requires t != []
    ensures (t + " " + u)[0] == t[0] && (t + " " + u)[1..] == t[1..] + " " + u
    ensures [t[0]] + t[1..] == t
  {
    assert (t + " " + u)[1..] == t[1..] + " " + u;
  }

  /** [0-9A-F]: the regular expressions accept upper-case digits only. */
  predicate IsHexDigit(c: char)
  {
    '0' <= c <= '9' || 'A' <= c <= 'F'
  }

  function DigitValue(c: char): (r: nat)
    requires IsHexDigit(c)
    ensures r < 16
  {
    if '0' <= c <= '9' then c as int - '0' as int else c as int - 'A' as int + 10
  }

  /** The longest run of hex digits `s` starts with ([0-9A-F]+ is greedy). */
  function HexRun(s: string): (r: string)
    ensures r <= s && (|r| == |s| || !IsHexDigit(s[|r|]))
    ensures forall i :: 0 <= i < |r| ==> IsHexDigit(r[i])
    decreases |s|
  {
    if s == [] || !IsHexDigit(s[0]) then []
    else
      var r := [s[0]] + HexRun(s[1..]);
      assert s == [s[0]] + s[1..];
      r
  }

  /** int(digits, 16). */
  function HexValue(digits: string): nat
    requires forall i :: 0 <= i < |digits| ==> IsHexDigit(digits[i])
    decreases |digits|
  {
    if digits == [] then 0
    else HexValue(digits[..|digits| - 1]) * 16 + DigitValue(digits[|digits| - 1])
  }

  /**
   * one_regex.match: a token that starts with "0x" and a hex digit, read
   * as the number its hex run spells; None for any other token.
   */
  function OneMatch(token: string): (r: Option<nat>)
    ensures r.Some? <==> |token| >= 3 && token[..2] == "0x" && IsHexDigit(token[2])
  {
    if |token| >= 3 && token[..2] == "0x" && IsHexDigit(token[2]) then Some(HexValue(HexRun(token[2..])))
    else None
  }

  /** overall_regex.match: the data starts with "0x" and a hex digit. */
  predicate OverallMatches(data: string)
  {
    |data| >= 3 && data[..2] == "0x" && IsHexDigit(data[2])
  }

  /**
   * The list comprehension of handle_data: chr of every token that matches,
   * in order.  None when chr raises ValueError, that is when a value is past
   * U+10FFFF.
   */
  function ParseCodepoints(tokens: seq<string>): (r: Option<seq<CodePoint>>)
    ensures r.Some? <==> forall i :: 0 <= i < |tokens| && OneMatch(tokens[i]).Some? ==> OneMatch(tokens[i]).value < 0x11_0000
    ensures r.Some? ==> |r.value| <= |tokens|
    ensures r.Some? && tokens != [] && OneMatch(tokens[0]).Some? ==>
      r.value != [] && r.value[0] == OneMatch(tokens[0]).value
    decreases |tokens|
  {
    if tokens == [] then Some([])
    else
      var rest := ParseCodepoints(tokens[1..]);
      assert forall i :: 1 <= i < |tokens| ==> tokens[i] == tokens[1..][i - 1];
      match OneMatch(tokens[0])
      case None => rest
      case Some(v) =>
        if v >= 0x11_0000 then None
        else if rest.None? then None
        else Some([v as CodePoint] + rest.value)
  }

  /** The first code point of data the guard lets through is parsed. */
  lemma FirstTokenMatches(data: string)
    requires OverallMatches(data)
    ensures OneMatch(SplitSpaces(data)[0]).Some?
  {
    var t := SplitSpaces(data)[0];
    assert data[0] == data[..2][0] && data[1] == data[..2][1];
    assert data[0] != ' ' && data[1] != ' ' && data[2] != ' ';
    assert t[..2] == data[..2] && t[2] == data[2];
  }

  // ---------------------------------------------------------------------
  // The table format read back: "0x" + upper-case hex, separated by spaces
  // ---------------------------------------------------------------------

  function HexDigitChar(d: nat): (c: char)
    requires d < 16
    ensures IsHexDigit(c) && DigitValue(c) == d
  {
    if d < 10 then ('0' as int + d) as char else ('A' as int + d - 10) as char
  }

  /** `n` in upper-case hex, without leading zeros. */
  function HexDigits(n: nat): (r: string)
    ensures r != [] && forall i :: 0 <= i < |r| ==> IsHexDigit(r[i])
    decreases n
  {
    if n < 16 then [HexDigitChar(n)] else HexDigits(n / 16) + [HexDigitChar(n % 16)]
  }

  /** int(..., 16) reads back what HexDigits writes. */
  lemma {:induction false} HexRoundTrip(n: nat)
    ensures HexValue(HexDigits(n)) == n
    decreases n
  {
    var r := HexDigits(n);
    if n >= 16 {
      HexRoundTrip(n / 16);
      assert r[..|r| - 1] == HexDigits(n / 16);
    } else {
      assert r[..0] == [];
    }
  }

  /** A hex run taken whole. */
  lemma {:induction false} HexRunWhole(s: string, u: string)
    requires forall i :: 0 <= i < |s| ==> IsHexDigit(s[i])
    requires u == [] || !IsHexDigit(u[0])
    ensures HexRun(s + u) == s
    decreases |s|
  {
    if s != [] {
      HexRunWhole(s[1..], u);
      assert (s + u)[1..] == s[1..] + u;
      assert [s[0]] + s[1..] == s;
    } else {
      assert s + u == u;
    }
  }

  /** The token written for one code point. */
  function Token(c: CodePoint): (t: string)
    ensures ' ' !in t
  {
    "0x" + HexDigits(c)
  }

  /** The tokens written for a sequence of code points, in order. */
  function Tokens(cps: seq<CodePoint>): (r: seq<string>)
    ensures |r| == |cps| && forall i :: 0 <= i < |cps| ==> r[i] == Token(cps[i])
    decreases |cps|
  {
    if cps == [] then [] else [Token(cps[0])] + Tokens(cps[1..])
  }

  /** A cell of the table: the code points in hex, one space apart. */
  function Cell(cps: seq<CodePoint>): string
    requires cps != []
  {
    JoinSpaces(Tokens(cps))
  }

  /** The token of a code point matches one_regex and reads back as the code point. */
  lemma TokenParses(c: CodePoint)
    ensures OneMatch(Token(c)) == Some(c as nat)
  {
    var t := Token(c);
    assert t[..2] == "0x" && t[2..] == HexDigits(c);
    HexRunWhole(HexDigits(c), []);
    assert HexDigits(c) + [] == HexDigits(c);
    HexRoundTrip(c);
  }

  /** handle_data parses a cell back into its code points. */
  lemma {:induction false} CellParses(cps: seq<CodePoint>)
    requires cps != []
    ensures OverallMatches(Cell(cps))
    ensures ParseCodepoints(SplitSpaces(Cell(cps))) == Some(cps)
  {
    var tokens := Tokens(cps);
    SplitJoin(tokens);
    TokensParse(cps);
    TokenParses(cps[0]);
    assert OverallMatches(tokens[0]);
    assert Cell(cps) == tokens[0] || Cell(cps) == tokens[0] + " " + JoinSpaces(tokens[1..]);
    assert Cell(cps)[..3] == tokens[0][..3];
  }

  lemma {:induction false} TokensParse(cps: seq<CodePoint>)
    ensures ParseCodepoints(Tokens(cps)) == Some(cps)
    decreases |cps|
  {
    if cps != [] {
      TokensParse(cps[1..]);
      TokenParses(cps[0]);
      ParseCons(Token(cps[0]), Tokens(cps[1..]), cps[0], cps[1..]);
      assert [Token(cps[0])] + Tokens(cps[1..]) == Tokens(cps);
      assert [cps[0]] + cps[1..] == cps;
    }
  }

  /** A token one_regex does not match is skipped. */
  lemma ParseSkips(t: string, rest: seq<string>)
    requires OneMatch(t).None?
    ensures ParseCodepoints([t] + rest) == ParseCodepoints(rest)
  {
    assert ([t] + rest)[0] == t && ([t] + rest)[1..] == rest;
  }

  /**
   * The comprehension works token by token: the tokens of `a + b` convert
   * exactly when those of `a` and those of `b` do, and their code points are
   * those of `a` followed by those of `b`.
   */
  lemma {:induction false} ParseAppend(a: seq<string>, b: seq<string>)
    ensures ParseCodepoints(a + b).Some? <==> ParseCodepoints(a).Some? && ParseCodepoints(b).Some?
    ensures ParseCodepoints(a + b).Some? ==>
      ParseCodepoints(a + b).value == ParseCodepoints(a).value + ParseCodepoints(b).value
    decreases |a|
  {
    if a == [] {
      assert a + b == b;
    } else {
      var t, rest := a[0], a[1..];
      ParseAppend(rest, b);
      HeadSplit(a, b);
      ParseStep(t, rest);
      ParseStep(t, rest + b);
    }
  }

  lemma HeadSplit(a: seq<string>, b: seq<string>)
    requires a != []
    ensures a == [a[0]] + a[1..] && a + b == [a[0]] + (a[1..] + b)
  {
  }

  /** One token of the comprehension. */
  lemma ParseStep(t: string, rest: seq<string>)
    ensures ParseCodepoints([t] + rest)
         == if OneMatch(t).None? then ParseCodepoints(rest)
            else if OneMatch(t).value >= 0x11_0000 || ParseCodepoints(rest).None? then None
            else Some([OneMatch(t).value as CodePoint] + ParseCodepoints(rest).value)
  {
    assert ([t] + rest)[0] == t && ([t] + rest)[1..] == rest;
  }

  /** A matching token in front of parsed tokens puts its code point in front. */
  lemma ParseCons(t: string, rest: seq<string>, c: CodePoint, cps: seq<CodePoint>)
    requires OneMatch(t) == Some(c as nat) && ParseCodepoints(rest) == Some(cps)
    ensures ParseCodepoints([t] + rest) == Some([c] + cps)
  {
    assert ([t] + rest)[0] == t && ([t] + rest)[1..] == rest;
  }

  // ---------------------------------------------------------------------
  // Trie insertion
  // ---------------------------------------------------------------------

  /** The nodes on the walk along `path`: its non-empty prefixes. */
  function Prefixes(path: seq<CodePoint>): (r: set<seq<CodePoint>>)
    ensures forall p :: p in r <==> p != [] && p <= path
  {
    var r := set j | 1 <= j <= |path| :: path[..j];
    assert forall p :: p != [] && p <= path ==> p == path[..|p|];
    r
  }

  /** The trie after setdefault has created every missing node on the walk along `path`. */
  function Defaulted(trie: Trie, path: seq<CodePoint>): (r: Trie)
    ensures r.Keys == trie.Keys + Prefixes(path)
    ensures forall p :: p in r ==> r[p] == if p in trie then trie[p] else None
  {
    map p | p in trie.Keys + Prefixes(path) :: if p in trie then trie[p] else None
  }

  /** The trie after inserting `path` with `current` at its end. */
  function Inserted(trie: Trie, path: seq<CodePoint>, current: seq<CodePoint>): Trie
  {
    Defaulted(trie, path)[path := Some(current)]
  }

  /**
   * Walk correctness of the insertion: every node on the walk exists, the
   * end node holds `current`, the others keep what they held (a fresh one
   * holds None), and no other node is added or changed.
   */
  lemma InsertedReaches(trie: Trie, path: seq<CodePoint>, current: seq<CodePoint>)
    requires path != []
    ensures var t := Inserted(trie, path, current);
      && t.Keys == trie.Keys + Prefixes(path)
      && t[path] == Some(current)
      && (forall p :: p in trie && p != path ==> t[p] == trie[p])
      && (forall p :: p in Prefixes(path) && p !in trie && p != path ==> t[p] == None)
  {
  }

  /** A later entry with the same decomposition wins. */
  lemma LaterEntryWins(trie: Trie, path: seq<CodePoint>, first: seq<CodePoint>, second: seq<CodePoint>)
    requires path != []
    ensures Inserted(Inserted(trie, path, first), path, second) == Inserted(trie, path, second)
  {
    var a, b := Inserted(Inserted(trie, path, first), path, second), Inserted(trie, path, second);
    assert a.Keys == b.Keys;
    forall p | p in a ensures a[p] == b[p] {
    }
  }

  /** Each node's parent is a node too; the top-level dictionary itself is no node. */
  ghost predicate PrefixClosed(trie: Trie)
  {
    forall p :: p in trie ==> p != [] && (|p| > 1 ==> p[..|p| - 1] in trie)
  }

  /** Top-level nodes never hold a character: every decomposition has at least two code points. */
  ghost predicate NoRootCurrent(trie: Trie)
  {
    forall p :: p in trie && |p| == 1 ==> trie[p] == None
  }

  /** Every recorded decomposition walks to a node that holds a character. */
  ghost predicate EncodingsReached(encoding: map<seq<CodePoint>, seq<CodePoint>>, trie: Trie)
  {
    forall k :: k in encoding ==> |encoding[k]| >= 2 && encoding[k] in trie && trie[encoding[k]].Some?
  }

  lemma InsertedKeepsShape(trie: Trie, path: seq<CodePoint>, current: seq<CodePoint>)
    requires PrefixClosed(trie) && NoRootCurrent(trie) && |path| >= 2
    ensures PrefixClosed(Inserted(trie, path, current)) && NoRootCurrent(Inserted(trie, path, current))
  {
    var t := Inserted(trie, path, current);
    forall p | p in t && |p| > 1 ensures p[..|p| - 1] in t {
      if p !in trie {
        assert p[..|p| - 1] <= path;
      }
    }
  }

  // ---------------------------------------------------------------------
  // The parser's state and its callbacks as functions
  // ---------------------------------------------------------------------

  datatype Snapshot = Snapshot(
    inTd: bool,
    inP: bool,
    encodingDic: map<seq<CodePoint>, seq<CodePoint>>,
    decodingDic: Trie,
    charToBeComposed: seq<CodePoint>)

  /** The state __init__ leaves. */
  const Initial := Snapshot(false, false, map[], map[], [])

  /** What the parser keeps true between callbacks. */
  ghost predicate ValidSnapshot(s: Snapshot)
  {
    && PrefixClosed(s.decodingDic) && NoRootCurrent(s.decodingDic)
    && EncodingsReached(s.encodingDic, s.decodingDic)
    && |s.charToBeComposed| <= 1
  }

  /** handle_starttag: `td` opens a cell; `p` opens a paragraph only inside a cell. */
  function StartTagged(s: Snapshot, tag: string): (r: Snapshot)
    ensures r.inTd == (s.inTd || Lower(tag) == "td")
    ensures r.inP == (s.inP || (Lower(tag) == "p" && s.inTd))
    ensures r.(inTd := s.inTd, inP := s.inP) == s
  {
    var t := s.(inTd := s.inTd || Lower(tag) == "td");
    t.(inP := t.inP || (Lower(tag) == "p" && t.inTd))
  }

  /** handle_endtag: `td` closes the cell and `p` the paragraph, each on its own. */
  function EndTagged(s: Snapshot, tag: string): (r: Snapshot)
    ensures r.inTd == (s.inTd && Lower(tag) != "td")
    ensures r.inP == (s.inP && Lower(tag) != "p")
    ensures r.(inTd := s.inTd, inP := s.inP) == s
  {
    var t := if Lower(tag) == "td" && s.inTd then s.(inTd := false) else s;
    if Lower(tag) == "p" && t.inP then t.(inP := false) else t
  }

  /**
   * handle_data: None when chr raises.  Outside a paragraph of a cell, or
   * when the data does not start with a hex code point, nothing changes.
   */
  function DataHandled(s: Snapshot, data: string): Option<Snapshot>
  {
    if !(s.inP && s.inTd && OverallMatches(data)) then Some(s)
    else match ParseCodepoints(SplitSpaces(data))
      case None => None
      case Some(cps) =>
        if |cps| >= 2 then
          Some(s.(encodingDic := s.encodingDic[s.charToBeComposed := cps],
                  decodingDic := Inserted(s.decodingDic, cps, s.charToBeComposed),
                  charToBeComposed := []))
        else if cps != [] then Some(s.(charToBeComposed := [cps[0]]))
        else Some(s)
  }

  /** __init__ leaves a state the parser may start from. */
  lemma InitialValid()
    ensures ValidSnapshot(Initial)
  {
  }

  /** Tags change neither dictionary nor the pending character. */
  lemma TagsKeepValid(s: Snapshot, tag: string)
    requires ValidSnapshot(s)
    ensures ValidSnapshot(StartTagged(s, tag)) && ValidSnapshot(EndTagged(s, tag))
  {
  }

  /** handle_data keeps the parser's invariant. */
  lemma DataKeepsValid(s: Snapshot, data: string)
    requires ValidSnapshot(s)
    ensures DataHandled(s, data).Some? ==> ValidSnapshot(DataHandled(s, data).value)
  {
    if s.inP && s.inTd && OverallMatches(data) {
      var parsed := ParseCodepoints(SplitSpaces(data));
      if parsed.Some? && |parsed.value| >= 2 {
        var cps, k := parsed.value, s.charToBeComposed;
        InsertedKeepsShape(s.decodingDic, cps, k);
        var e, t := s.encodingDic[k := cps], Inserted(s.decodingDic, cps, k);
        forall j | j in e ensures |e[j]| >= 2 && e[j] in t && t[e[j]].Some? {
          if j != k {
            assert e[j] == s.encodingDic[j];
          }
        }
      }
    }
  }

  /**
   * What handle_data does with data it accepts and can convert: the guard
   * guarantees a first code point; one code point only becomes the
   * character to be composed, more are recorded under it in both
   * dictionaries, the trie gaining exactly the nodes on their walk.
   */
  lemma DataEffect(s: Snapshot, data: string)
    requires s.inP && s.inTd && OverallMatches(data) && ParseCodepoints(SplitSpaces(data)).Some?
    ensures var cps, r := ParseCodepoints(SplitSpaces(data)).value, DataHandled(s, data).value;
      && cps != [] && r.inTd && r.inP
      && (|cps| == 1 ==> r == s.(charToBeComposed := cps))
      && (|cps| >= 2 ==>
            && r.encodingDic == s.encodingDic[s.charToBeComposed := cps]
            && r.decodingDic.Keys == s.decodingDic.Keys + Prefixes(cps)
            && r.decodingDic[cps] == Some(s.charToBeComposed)
            && r.charToBeComposed == [])
  {
    FirstTokenMatches(data);
    var cps := ParseCodepoints(SplitSpaces(data)).value;
    if |cps| == 1 {
      assert [cps[0]] == cps;
    } else {
      InsertedReaches(s.decodingDic, cps, s.charToBeComposed);
    }
  }

  /**
   * A cell read inside a paragraph of a cell: one code point becomes the
   * character to be composed; more are recorded under it in both
   * dictionaries, and the character is cleared.  Never raises.
   */
  lemma CellRecorded(s: Snapshot, cps: seq<CodePoint>)
    requires s.inP && s.inTd && cps != []
    ensures DataHandled(s, Cell(cps)).Some?
    ensures var r := DataHandled(s, Cell(cps)).value;
      if |cps| == 1 then r == s.(charToBeComposed := cps)
      else
        && r.encodingDic == s.encodingDic[s.charToBeComposed := cps]
        && r.decodingDic == Inserted(s.decodingDic, cps, s.charToBeComposed)
        && r.decodingDic[cps] == Some(s.charToBeComposed)
        && r.charToBeComposed == []
        && r.inTd && r.inP
  {
    CellParses(cps);
    if |cps| == 1 {
      assert [cps[0]] == cps;
    }
  }

  /** A cell outside a paragraph of a cell leaves the parser as it was. */
  lemma CellOutsideIgnored(s: Snapshot, data: string)
    requires !(s.inP && s.inTd)
    ensures DataHandled(s, data) == Some(s)
  {
  }

  // ---------------------------------------------------------------------
  // The parser
  // ---------------------------------------------------------------------

  class DecompositionParser {
    var inTd: bool
    var inP: bool
    /** encoding_dic: character to be decomposed -> its decomposition. */
    var encodingDic: map<seq<CodePoint>, seq<CodePoint>>
    /** decoding_dic, its nodes addressed by path. */
    var decodingDic: Trie
    var charToBeComposed: seq<CodePoint>

    function State(): Snapshot
      reads this
    {
      Snapshot(inTd, inP, encodingDic, decodingDic, charToBeComposed)
    }

    ghost predicate Valid()
      reads this
    {
      ValidSnapshot(State())
    }

    constructor ()
      ensures State() == Initial && Valid()
    {
      inTd, inP := false, false;
      encodingDic, decodingDic := map[], map[];
      charToBeComposed := [];
    }

    method HandleStartTag(tag: string)
      requires Valid()
      modifies this
      ensures Valid()
      ensures State() == StartTagged(old(State()), tag)
    {
      TagsKeepValid(State(), tag);
      if Lower(tag) == "td" {
        inTd := true;
      }
      if Lower(tag) == "p" && inTd {
        inP := true;
      }
    }

    method HandleEndTag(tag: string)
      requires Valid()
      modifies this
      ensures Valid()
      ensures State() == EndTagged(old(State()), tag)
    {
      TagsKeepValid(State(), tag);
      if Lower(tag) == "td" && inTd {
        inTd := false;
      }
      if Lower(tag) == "p" && inP {
        inP := false;
      }
    }

    /** `raised` stands for the ValueError chr raises; the state is then unchanged. */
    method HandleData(data: string) returns (raised: bool)
      requires Valid()
      modifies this
      ensures Valid()
      ensures raised <==> DataHandled(old(State()), data).None?
      ensures !raised ==> State() == DataHandled(old(State()), data).value
      ensures raised ==> State() == old(State())
    {
      ghost var s := State();
      DataKeepsValid(s, data);
      raised := false;
      if inP && inTd && OverallMatches(data) {
        var parsed := ParseCodepoints(SplitSpaces(data));
        if parsed.None? {
          raised := true;
          return;
        }
        var codepoints := parsed.value;
        FirstTokenMatches(data);
        if |codepoints| >= 2 {
          RecordDecomposition(codepoints);
        } else {
          assert DataHandled(s, data) == Some(s.(charToBeComposed := [codepoints[0]]));
          charToBeComposed := [codepoints[0]];
        }
      }
    }

    /** The branch of handle_data for two or more code points: both dictionaries record them under the pending character. */
    method RecordDecomposition(codepoints: seq<CodePoint>)
      requires |codepoints| >= 2
      modifies this
      ensures State() == old(State()).(encodingDic := old(encodingDic)[old(charToBeComposed) := codepoints],
                                       decodingDic := Inserted(old(decodingDic), codepoints, old(charToBeComposed)),
                                       charToBeComposed := [])
    {
      encodingDic := encodingDic[charToBeComposed := codepoints];
      InsertPath(codepoints, charToBeComposed);
      charToBeComposed := [];
    }

    /** The setdefault walk down decoding_dic and the final store of "current". */
    method InsertPath(codepoints: seq<CodePoint>, current: seq<CodePoint>)
      requires |codepoints| >= 2
      modifies this`decodingDic
      ensures decodingDic == Inserted(old(decodingDic), codepoints, current)
    {
      ghost var before := decodingDic;
      assert codepoints[..0] == [] && codepoints[..1] == [codepoints[0]];
      DefaultedNothing(before);
      if [codepoints[0]] !in decodingDic {
        decodingDic := decodingDic[[codepoints[0]] := None];
      }
      var d := [codepoints[0]];
      DefaultedSnoc(before, codepoints, 0);
      var i := 1;
      while i < |codepoints|
        invariant 1 <= i <= |codepoints|
        invariant d == codepoints[..i]
        invariant decodingDic == Defaulted(before, codepoints[..i])
      {
        var c := codepoints[i];
        if d + [c] !in decodingDic {
          decodingDic := decodingDic[d + [c] := None];
        }
        assert codepoints[..i + 1] == d + [c];
        d := d + [c];
        DefaultedSnoc(before, codepoints, i);
        i := i + 1;
      }
      assert codepoints[..i] == codepoints;
      decodingDic := decodingDic[d := Some(current)];
    }
  }

  lemma DefaultedNothing(trie: Trie)
    ensures Defaulted(trie, []) == trie
  {
  }

  /** One more setdefault: the walk's next node is created if missing. */
  lemma DefaultedSnoc(trie: Trie, path: seq<CodePoint>, i: nat)
    requires i < |path|
    ensures var t, q := Defaulted(trie, path[..i]), path[..i + 1];
      Defaulted(trie, q) == if q in t then t else t[q := None]
  {
    var q := path[..i + 1];
    assert Prefixes(q) == Prefixes(path[..i]) + {q} by {
      forall p | p in Prefixes(q) ensures p in Prefixes(path[..i]) + {q} {
        if p != q {
          assert |p| <= i;
          assert p <= path[..i];
        }
      }
    }
  }
}
