/**
 * `read_last_n_lines`: the tail of the server log, keeping only lines that
 * contain none of the exclude keywords. The file is given as the sequence of
 * lines `readlines` yields, or `None` when it does not exist.
 */
module LogTail {
  import opened Optional

  /** Whether `sub` occurs in `s` starting at index `i`. */
  predicate OccursAt(s: string, sub: string, i: int) {
    0 <= i && i + |sub| <= |s| && s[i..i + |sub|] == sub
  }

  lemma OccursShift(s: string, sub: string, i: int)
    requires |s| > 0 && 0 <= i
    ensures OccursAt(s, sub, i + 1) <==> OccursAt(s[1..], sub, i)
  {
    if i + 1 + |sub| <= |s| {
      assert s[1..][i..i + |sub|] == s[i + 1..i + 1 + |sub|];
    }
  }

  /** Python's `str.find`: the index where `sub` first occurs in `s`, or -1. */
  function Find(s: string, sub: string): (r: int)
    ensures r == -1 || 0 <= r <= |s| - |sub|
    decreases |s|
  {
    if |s| < |sub| then -1
    else if s[..|sub|] == sub then 0
    else
      var k := Find(s[1..], sub);
      if k == -1 then -1 else k + 1
  }

  /** `Find` answers -1 exactly when `sub` does not occur, and otherwise the first place it does. */
  lemma {:induction false} FindIsFirstOccurrence(s: string, sub: string)
    ensures Find(s, sub) == -1 <==> forall i :: !OccursAt(s, sub, i)
    ensures Find(s, sub) != -1 ==>
              OccursAt(s, sub, Find(s, sub)) && forall i :: 0 <= i < Find(s, sub) ==> !OccursAt(s, sub, i)
    decreases |s|
  {
    if |s| < |sub| {
    } else if s[..|sub|] == sub {
      assert OccursAt(s, sub, 0);
    } else {
      assert !OccursAt(s, sub, 0) by { assert s[0..|sub|] == s[..|sub|]; }
      FindIsFirstOccurrence(s[1..], sub);
      forall j | 1 <= j ensures OccursAt(s, sub, j) <==> OccursAt(s[1..], sub, j - 1) {
        OccursShift(s, sub, j - 1);
      }
      var k := Find(s[1..], sub);
      if k != -1 {
        assert OccursAt(s, sub, k + 1);
      }
    }
  }

  /** Python's `any(line.find(kw) != -1 for kw in keywords)`, taking the keywords in order. */
  predicate Excluded(line: string, keywords: seq<string>)
    ensures Excluded(line, keywords) ==> keywords != []
  {
    keywords != [] && (Find(line, keywords[0]) != -1 || Excluded(line, keywords[1..]))
  }

  /** A line is excluded exactly when some keyword occurs in it. */
  lemma {:induction false} ExcludedIffSomeKeywordOccurs(line: string, keywords: seq<string>)
    ensures Excluded(line, keywords)
        <==> exists k, i :: 0 <= k < |keywords| && OccursAt(line, keywords[k], i)
    decreases |keywords|
  {
    if keywords != [] {
      ExcludedIffSomeKeywordOccurs(line, keywords[1..]);
      FindIsFirstOccurrence(line, keywords[0]);
      if exists k, i :: 0 <= k < |keywords| && OccursAt(line, keywords[k], i) {
        var k, i :| 0 <= k < |keywords| && OccursAt(line, keywords[k], i);
        if k > 0 {
          assert keywords[1..][k - 1] == keywords[k];
        }
      }
      if exists k, i :: 0 <= k < |keywords[1..]| && OccursAt(line, keywords[1..][k], i) {
        var k, i :| 0 <= k < |keywords[1..]| && OccursAt(line, keywords[1..][k], i);
        assert OccursAt(line, keywords[k + 1], i);
      }
    }
  }

  /** The lines that pass the keyword filter, in file order. */
  function Survivors(lines: seq<string>, keywords: seq<string>): (r: seq<string>)
    ensures |r| <= |lines|
  {
    if lines == [] then []
    else
      var last := lines[|lines| - 1];
      Survivors(lines[..|lines| - 1], keywords) + (if Excluded(last, keywords) then [] else [last])
  }

  lemma {:induction false} SurvivorsAppend(a: seq<string>, b: seq<string>, keywords: seq<string>)
    ensures Survivors(a + b, keywords) == Survivors(a, keywords) + Survivors(b, keywords)
    decreases |b|
  {
    if b == [] {
      assert a + b == a;
    } else {
      var init, last := b[..|b| - 1], b[|b| - 1];
      var kept := if Excluded(last, keywords) then [] else [last];
      assert (a + b)[..|a + b| - 1] == a + init;
      assert (a + b)[|a + b| - 1] == last;
      SurvivorsAppend(a, init, keywords);
      var sa, si := Survivors(a, keywords), Survivors(init, keywords);
      assert Survivors(a + b, keywords) == (sa + si) + kept;
      assert Survivors(b, keywords) == si + kept;
      assert (sa + si) + kept == sa + (si + kept);
    }
  }

  /** No line that passes the filter contains an exclude keyword. */
  lemma {:induction false} SurvivorsPass(lines: seq<string>, keywords: seq<string>)
    ensures forall k :: 0 <= k < |Survivors(lines, keywords)| ==> !Excluded(Survivors(lines, keywords)[k], keywords)
    decreases |lines|
  {
    if lines != [] {
      SurvivorsPass(lines[..|lines| - 1], keywords);
    }
  }

  /** The last `n` elements of `s`, or all of them when there are fewer; none when `n <= 0`. */
  function TakeLast(s: seq<string>, n: int): (r: seq<string>)
    ensures |r| == if n <= 0 then 0 else if n < |s| then n else |s|
    ensures s == s[..|s| - |r|] + r
  {
    if n <= 0 then [] else if n < |s| then s[|s| - n..] else s
  }

  /** What `read_last_n_lines` returns for an existing file. */
  function LastNLines(lines: seq<string>, n: int, keywords: seq<string>): (r: seq<string>)
    ensures n <= 0 ==> r == []
    ensures |r| <= n || r == []
    ensures forall k :: 0 <= k < |r| ==> !Excluded(r[k], keywords)
  {
    SurvivorsPass(lines, keywords);
    TakeLast(Survivors(lines, keywords), n)
  }

  /** `idx` lists, in increasing order, the positions in `s` of the elements of `sub`. */
  ghost predicate Embedding(idx: seq<int>, sub: seq<string>, s: seq<string>) {
    |idx| == |sub|
    && (forall k :: 0 <= k < |idx| ==> 0 <= idx[k] < |s| && sub[k] == s[idx[k]])
    && (forall k, l :: 0 <= k < l < |idx| ==> idx[k] < idx[l])
  }

  /** `sub` is obtained from `s` by deleting elements, keeping the order of the rest. */
  ghost predicate IsSubsequence(sub: seq<string>, s: seq<string>) {
    exists idx :: Embedding(idx, sub, s)
  }

  /** The positions in the file of the lines that pass the filter. */
  ghost function Positions(lines: seq<string>, keywords: seq<string>): seq<int> {
    if lines == [] then []
    else
      Positions(lines[..|lines| - 1], keywords)
      + (if Excluded(lines[|lines| - 1], keywords) then [] else [|lines| - 1])
  }

  /** The surviving lines sit in the file, in order, at `Positions`. */
  lemma {:induction false} PositionsEmbedSurvivors(lines: seq<string>, keywords: seq<string>)
    ensures Embedding(Positions(lines, keywords), Survivors(lines, keywords), lines)
    decreases |lines|
  {
    if lines != [] {
      var init := lines[..|lines| - 1];
      PositionsEmbedSurvivors(init, keywords);
      EmbeddingWiden(Positions(init, keywords), Survivors(init, keywords), init, lines);
      if !Excluded(lines[|lines| - 1], keywords) {
        EmbeddingExtend(Positions(init, keywords), Survivors(init, keywords), lines);
      }
    }
  }

  /** Every line that contains no exclude keyword is among the survivors. */
  lemma {:induction false} PositionsCoverPassingLines(lines: seq<string>, keywords: seq<string>)
    ensures forall j :: 0 <= j < |lines| && !Excluded(lines[j], keywords) ==> j in Positions(lines, keywords)
    decreases |lines|
  {
    if lines != [] {
      var init := lines[..|lines| - 1];
      PositionsCoverPassingLines(init, keywords);
      forall j | 0 <= j < |lines| - 1 && !Excluded(lines[j], keywords) ensures j in Positions(lines, keywords) {
        assert init[j] == lines[j];
      }
    }
  }

  /** An embedding into all but the last line is an embedding into all the lines. */
  lemma EmbeddingWiden(idx: seq<int>, sub: seq<string>, init: seq<string>, s: seq<string>)
    requires Embedding(idx, sub, init) && s != [] && init == s[..|s| - 1]
    ensures Embedding(idx, sub, s)
    ensures forall k :: 0 <= k < |idx| ==> idx[k] < |s| - 1
  {
    forall k | 0 <= k < |idx| ensures sub[k] == s[idx[k]] {
      assert init[idx[k]] == s[idx[k]];
    }
  }

  /** The last line can be appended to an embedding of lines before it. */
  lemma EmbeddingExtend(idx: seq<int>, sub: seq<string>, s: seq<string>)
    requires Embedding(idx, sub, s) && s != []
    requires forall k :: 0 <= k < |idx| ==> idx[k] < |s| - 1
    ensures Embedding(idx + [|s| - 1], sub + [s[|s| - 1]], s)
  {
  }

  /** Dropping the first `drop` elements keeps an embedding an embedding. */
  lemma EmbeddingTail(idx: seq<int>, sub: seq<string>, s: seq<string>, drop: nat)
    requires Embedding(idx, sub, s) && drop <= |sub|
    ensures Embedding(idx[drop..], sub[drop..], s)
  {
    forall k | 0 <= k < |idx| - drop ensures idx[drop..][k] == idx[drop + k] && sub[drop..][k] == sub[drop + k] {
    }
  }

  /**
   * The result sits in the file in order, and it is a tail of the surviving
   * lines: it holds min(n, k) of the k surviving lines, and every surviving
   * line at or after the first one returned is returned.
   */
  lemma ResultPositions(lines: seq<string>, n: int, keywords: seq<string>) returns (idx: seq<int>)
    ensures Embedding(idx, LastNLines(lines, n, keywords), lines)
    ensures |idx| == if n <= 0 then 0 else if n < |Survivors(lines, keywords)| then n else |Survivors(lines, keywords)|
    ensures forall j :: |idx| > 0 && idx[0] <= j < |lines| && !Excluded(lines[j], keywords) ==> j in idx
  {
    var all := Positions(lines, keywords);
    PositionsEmbedSurvivors(lines, keywords);
    PositionsCoverPassingLines(lines, keywords);
    var s := Survivors(lines, keywords);
    var drop := |s| - |LastNLines(lines, n, keywords)|;
    assert s[drop..] == LastNLines(lines, n, keywords);
    EmbeddingTail(all, s, lines, drop);
    idx := all[drop..];
    forall j | |idx| > 0 && idx[0] <= j < |lines| && !Excluded(lines[j], keywords) ensures j in idx {
      var p :| 0 <= p < |all| && all[p] == j;
      assert p >= drop;
      assert idx[p - drop] == j;
    }
  }

  /** Every result is a subsequence of the file's lines. */
  lemma ResultIsSubsequence(lines: seq<string>, n: int, keywords: seq<string>)
    ensures IsSubsequence(LastNLines(lines, n, keywords), lines)
  {
    var idx := ResultPositions(lines, n, keywords);
  }

  /** Without exclude keywords every line survives. */
  lemma {:induction false} SurvivorsWithoutKeywords(lines: seq<string>)
    ensures Survivors(lines, []) == lines
    decreases |lines|
  {
    if lines != [] {
      SurvivorsWithoutKeywords(lines[..|lines| - 1]);
      assert lines[..|lines| - 1] + [lines[|lines| - 1]] == lines;
    }
  }

  /** With no exclude keywords the result is the last min(n, |lines|) lines of the file. */
  lemma NoKeywordsKeepsLastLines(lines: seq<string>, n: int)
    ensures LastNLines(lines, n, []) == TakeLast(lines, n)
  {
    SurvivorsWithoutKeywords(lines);
  }

  /** An empty exclude keyword occurs in every line, so it hides the whole log. */
  lemma {:induction false} EmptyKeywordHidesAll(lines: seq<string>, n: int, keywords: seq<string>)
    requires "" in keywords
    ensures Survivors(lines, keywords) == []
    ensures LastNLines(lines, n, keywords) == []
    decreases |lines|
  {
    if lines != [] {
      EmptyKeywordHidesAll(lines[..|lines| - 1], n, keywords);
      var k :| 0 <= k < |keywords| && keywords[k] == "";
      assert OccursAt(lines[|lines| - 1], keywords[k], 0);
      ExcludedIffSomeKeywordOccurs(lines[|lines| - 1], keywords);
    }
  }

  /** The lines of the worked example: only "ERROR c" holds the keyword "ERROR". */
  lemma ExampleLines(keywords: seq<string>)
    requires keywords == ["ERROR"]
    ensures Excluded("ERROR c", keywords)
    ensures !Excluded("a", keywords) && !Excluded("b", keywords)
    ensures !Excluded("d", keywords) && !Excluded("e", keywords)
  {
    assert OccursAt("ERROR c", keywords[0], 0);
    FindIsFirstOccurrence("ERROR c", keywords[0]);
    assert keywords[1..] == [];
  }

  /** Five lines, one of them an error line, keep the last three: ["b", "d", "e"]. */
  lemma ExampleTail(lines: seq<string>, keywords: seq<string>)
    requires lines == ["a", "b", "ERROR c", "d", "e"] && keywords == ["ERROR"]
    ensures LastNLines(lines, 3, keywords) == ["b", "d", "e"]
  {
    ExampleLines(keywords);
    var l1, l2, l3, l4 := lines[..1], lines[..2], lines[..3], lines[..4];
    assert l1[..0] == [] && l2[..1] == l1 && l3[..2] == l2 && l4[..3] == l3 && lines[..4] == l4;
    assert Survivors(l1, keywords) == ["a"];
    assert Survivors(l2, keywords) == ["a", "b"];
    assert Survivors(l3, keywords) == ["a", "b"];
    assert Survivors(l4, keywords) == ["a", "b", "d"];
    assert Survivors(lines, keywords) == ["a", "b", "d", "e"];
  }

  /** `s` read backwards, as Python's `[::-1]`. */
  function Reversed(s: seq<string>): (r: seq<string>)
    ensures |r| == |s|
  {
    if s == [] then [] else Reversed(s[1..]) + [s[0]]
  }

  lemma {:induction false} ReversedAppend(a: seq<string>, b: seq<string>)
    ensures Reversed(a + b) == Reversed(b) + Reversed(a)
    decreases |a|
  {
    if a == [] {
      assert a + b == b;
    } else {
      ReversedAppend(a[1..], b);
      assert (a + b)[1..] == a[1..] + b;
    }
  }

  lemma {:induction false} ReversedTwice(s: seq<string>)
    ensures Reversed(Reversed(s)) == s
    decreases |s|
  {
    if s != [] {
      ReversedTwice(s[1..]);
      ReversedAppend(Reversed(s[1..]), [s[0]]);
      assert Reversed([s[0]]) == [s[0]] by { assert [s[0]][1..] == []; }
      assert [s[0]] + s[1..] == s;
    }
  }

  lemma {:induction false} ReversedAt(s: seq<string>, k: int)
    requires 0 <= k < |s|
    ensures Reversed(s)[k] == s[|s| - 1 - k]
    decreases |s|
  {
    if k < |s| - 1 {
      ReversedAt(s[1..], k);
    }
  }

  /** Scanning the line `i` places from the end keeps it exactly when it passes the filter. */
  lemma ScanStep(lines: seq<string>, newestFirst: seq<string>, i: nat, keywords: seq<string>)
    requires newestFirst == Reversed(lines) && i < |lines|
    ensures Reversed(Survivors(lines[|lines| - (i + 1)..], keywords))
         == Reversed(Survivors(lines[|lines| - i..], keywords))
            + (if Excluded(newestFirst[i], keywords) then [] else [newestFirst[i]])
  {
    ReversedAt(lines, i);
    var line := lines[|lines| - 1 - i];
    var rest := lines[|lines| - i..];
    assert lines[|lines| - (i + 1)..] == [line] + rest;
    SurvivorsAppend([line], rest, keywords);
    assert Survivors([line], keywords) == if Excluded(line, keywords) then [] else [line] by {
      assert [line][..0] == [];
    }
    ReversedAppend(Survivors([line], keywords), Survivors(rest, keywords));
    assert Reversed([line]) == [line] by { assert [line][1..] == []; }
  }

  /**
   * The survivors of the newest `i` lines are the last `n` survivors of the
   * file once the whole file has been scanned or `n` of them have been kept.
   */
  lemma ScanDone(lines: seq<string>, i: nat, n: int, keywords: seq<string>)
    requires i <= |lines|
    requires |Survivors(lines[|lines| - i..], keywords)| <= n || Survivors(lines[|lines| - i..], keywords) == []
    requires i == |lines| || |Survivors(lines[|lines| - i..], keywords)| >= n
    ensures Survivors(lines[|lines| - i..], keywords) == LastNLines(lines, n, keywords)
  {
    assert lines == lines[..|lines| - i] + lines[|lines| - i..];
    SurvivorsAppend(lines[..|lines| - i], lines[|lines| - i..], keywords);
    if i == |lines| {
      assert lines[|lines| - i..] == lines;
    }
  }

  /** The file's lines, newest first; scan until `n` lines are kept; restore file order. */
  method ReadLastNLines(path: string, file: Option<seq<string>>, n: int, excludeKeywords: Option<seq<string>>)
    returns (r: seq<string>)
    ensures file.None? ==> r == ["File not found: " + path]
    ensures file.Some? ==>
              r == LastNLines(file.value, n, if excludeKeywords.Some? then excludeKeywords.value else [])
  {
    var keywords := if excludeKeywords.Some? then excludeKeywords.value else [];
    if file.None? {
      return ["File not found: " + path];
    }
    ghost var lines := file.value;
    var newestFirst := Reversed(file.value);
    var kept: seq<string> := [];
    var i := 0;
    while i < |newestFirst|
      invariant 0 <= i <= |newestFirst| == |lines|
      invariant kept == Reversed(Survivors(lines[|lines| - i..], keywords))
      invariant |kept| <= n || kept == []
    {
      if |kept| >= n {
        break;
      }
      var line := newestFirst[i];
      ScanStep(lines, newestFirst, i, keywords);
      if !Excluded(line, keywords) {
        kept := kept + [line];
      }
      i := i + 1;
    }
    ghost var newest := Survivors(lines[|lines| - i..], keywords);
    ReversedTwice(newest);
    r := Reversed(kept);
    ScanDone(lines, i, n, keywords);
  }
}
