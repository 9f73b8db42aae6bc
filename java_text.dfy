/** The few java.lang.String operations the chat viewer depends on, stated over
    `string`: startsWith, lastIndexOf(char) and split("\\s+") with the default
    limit of 0. */
module JavaText {

  /** `s.startsWith(prefix)`: `prefix` fits in `s` and agrees with it
      character by character from the start. */
  predicate StartsWith(s: string, prefix: string): (r: bool)
    ensures r <==> |prefix| <= |s| && forall k :: 0 <= k < |prefix| ==> s[k] == prefix[k]
  {
    |prefix| <= |s| && s[..|prefix|] == prefix
  }

  /** `s.endsWith(suffix)` */
  predicate EndsWith(s: string, suffix: string)
  {
    |suffix| <= |s| && s[|s| - |suffix|..] == suffix
  }

  /** `s.lastIndexOf(c)`: the position of the last occurrence of `c`, or -1. */
  function LastIndexOf(s: string, c: char): (r: int)
    ensures -1 <= r < |s|
    ensures r >= 0 ==> s[r] == c
    ensures forall j :: r < j < |s| ==> s[j] != c
  {
    if |s| == 0 then -1
    else if s[|s| - 1] == c then |s| - 1
    else LastIndexOf(s[..|s| - 1], c)
  }

  /** The characters the regular-expression class `\s` stands for: space, and
      tab, line feed, vertical tab, form feed and carriage return, which are the
      consecutive code points 9 to 13. */
  predicate IsWhitespace(c: char)
  {
    c == ' ' || '\t' <= c <= '\r'
  }

  predicate NoWhitespace(s: string)
  {
    forall i :: 0 <= i < |s| ==> !IsWhitespace(s[i])
  }

  /** The end of the run of non-whitespace characters that starts at `i`. */
  function WordEnd(s: string, i: nat): (j: nat)
    requires i <= |s|
    ensures i <= j <= |s|
    ensures forall k :: i <= k < j ==> !IsWhitespace(s[k])
    ensures j < |s| ==> IsWhitespace(s[j])
    decreases |s| - i
  {
    if i == |s| || IsWhitespace(s[i]) then i else WordEnd(s, i + 1)
  }

  /** The end of the run of whitespace that starts at `i`: where a match of
      `\s+` found at `i` stops, the regex quantifier being greedy. */
  function SpaceEnd(s: string, i: nat): (j: nat)
    requires i <= |s|
    ensures i <= j <= |s|
    ensures forall k :: i <= k < j ==> IsWhitespace(s[k])
    ensures j < |s| ==> !IsWhitespace(s[j])
    ensures i < |s| && IsWhitespace(s[i]) ==> i < j
    decreases |s| - i
  {
    if i < |s| && IsWhitespace(s[i]) then SpaceEnd(s, i + 1) else i
  }

  /** The pieces of `s[i..]` between the matches of `\s+`, before split drops
      anything: a leading run of whitespace gives an empty first piece and a
      trailing run an empty last piece; every piece in between is a non-empty
      word. */
  function PiecesFrom(s: string, i: nat): (p: seq<string>)
    requires i <= |s|
    ensures |p| >= 1 && p[0] == s[i..WordEnd(s, i)]
    ensures forall k :: 0 <= k < |p| ==> NoWhitespace(p[k])
    ensures forall k :: 0 < k < |p| - 1 ==> p[k] != ""
    decreases |s| - i
  {
    var j := WordEnd(s, i);
    if j == |s| then [s[i..]]
    else
      var m := SpaceEnd(s, j);
      assert m == |s| ==> PiecesFrom(s, m) == [""];
      assert m < |s| ==> WordEnd(s, m) > m;
      [s[i..j]] + PiecesFrom(s, m)
  }

  /** Removes the empty strings at the end of a list of pieces (the rule of
      split with limit 0). */
  function DropTrailingEmpty(p: seq<string>): (r: seq<string>)
    ensures |r| <= |p| && r == p[..|r|]
    ensures |r| > 0 ==> r[|r| - 1] != ""
    ensures forall k :: |r| <= k < |p| ==> p[k] == ""
  {
    if |p| > 0 && p[|p| - 1] == "" then DropTrailingEmpty(p[..|p| - 1]) else p
  }

  /** The words joined with one space between neighbours. */
  function Join(words: seq<string>): string
  {
    if |words| == 0 then ""
    else if |words| == 1 then words[0]
    else words[0] + (" " + Join(words[1..]))
  }

  /** `s[i..]` with every maximal run of whitespace replaced by one space. */
  function CollapseFrom(s: string, i: nat): string
    requires i <= |s|
    decreases |s| - i
  {
    if i == |s| then ""
    else if IsWhitespace(s[i]) then " " + CollapseFrom(s, SpaceEnd(s, i))
    else [s[i]] + CollapseFrom(s, i + 1)
  }

  /** `c` without a final space. */
  function DropFinalSpace(c: string): string
  {
    if |c| > 0 && c[|c| - 1] == ' ' then c[..|c| - 1] else c
  }

  /** Collapsed whitespace, with no space left at the end: what joining the
      words of `s` gives back. */
  function SquashWhitespace(s: string): string
  {
    DropFinalSpace(CollapseFrom(s, 0))
  }

  /** `s.split("\\s+")`. When `\s+` matches nowhere, the result is `[s]`, even
      for the empty string. Otherwise it is the pieces between the matches with
      the empty strings at the end removed: a leading empty word is kept, and a
      string of whitespace only gives no words at all. Every word is free of
      whitespace, only the first may be empty, and joining the words with single
      spaces gives `s` with its whitespace runs squashed to one space and the
      trailing one removed. The last clause tells `[""]` (from the empty
      string) apart from `[]` (from whitespace only). */
  function Split(s: string): (words: seq<string>)
    ensures forall k :: 0 <= k < |words| ==> NoWhitespace(words[k])
    ensures forall k :: 0 < k < |words| ==> words[k] != ""
    ensures Join(words) == SquashWhitespace(s)
    ensures words == [""] <==> s == ""
  {
    if NoWhitespace(s) then
      SquashWord(s);
      [s]
    else
      SplitDroppingTrailing(s);
      DropTrailingEmpty(PiecesFrom(s, 0))
  }

  lemma SquashWord(s: string)
    requires NoWhitespace(s)
    ensures SquashWhitespace(s) == s
  {
    CollapseWord(s, 0, |s|);
    assert s[0..|s|] + "" == s;
    if |s| > 0 {
      assert !IsWhitespace(s[|s| - 1]);
    }
  }

  lemma SplitDroppingTrailing(s: string)
    requires !NoWhitespace(s)
    ensures var r := DropTrailingEmpty(PiecesFrom(s, 0));
      (forall k :: 0 <= k < |r| ==> NoWhitespace(r[k])) &&
      (forall k :: 0 < k < |r| ==> r[k] != "") &&
      Join(r) == SquashWhitespace(s) && r != [""] && s != ""
  {
    var p := PiecesFrom(s, 0);
    var r := DropTrailingEmpty(p);
    JoinPiecesIsCollapse(s, 0);
    JoinDropTrailingEmpty(p);
    forall k | 0 <= k < |r| ensures NoWhitespace(r[k]) && (k > 0 ==> r[k] != "") {
      assert r[k] == p[k];
    }
  }

  /** Collapsing leaves a run of non-whitespace characters as it is. */
  lemma {:induction false} CollapseWord(s: string, i: nat, j: nat)
    requires i <= j <= |s|
    requires forall k :: i <= k < j ==> !IsWhitespace(s[k])
    ensures CollapseFrom(s, i) == s[i..j] + CollapseFrom(s, j)
    decreases j - i
  {
    if i < j {
      CollapseWord(s, i + 1, j);
      var rest := CollapseFrom(s, j);
      calc {
        CollapseFrom(s, i);
        [s[i]] + CollapseFrom(s, i + 1);
        [s[i]] + (s[i + 1..j] + rest);
        { ConcatAssoc([s[i]], s[i + 1..j], rest); }
        ([s[i]] + s[i + 1..j]) + rest;
        { assert [s[i]] + s[i + 1..j] == s[i..j]; }
        s[i..j] + rest;
      }
    }
  }

  lemma {:induction false} JoinPiecesIsCollapse(s: string, i: nat)
    requires i <= |s|
    ensures Join(PiecesFrom(s, i)) == CollapseFrom(s, i)
    decreases |s| - i
  {
    var j := WordEnd(s, i);
    CollapseWord(s, i, j);
    if j == |s| {
      assert s[i..j] + "" == s[i..];
    } else {
      var m := SpaceEnd(s, j);
      JoinPiecesIsCollapse(s, m);
      var p := PiecesFrom(s, i);
      assert p[1..] == PiecesFrom(s, m);
    }
  }

  lemma ConcatAssoc(a: string, b: string, c: string)
    ensures a + (b + c) == (a + b) + c
  {
  }

  lemma {:induction false} JoinSnoc(p: seq<string>, x: string)
    requires |p| > 0
    ensures Join(p + [x]) == Join(p) + (" " + x)
    decreases |p|
  {
    if |p| > 1 {
      assert (p + [x])[1..] == p[1..] + [x];
      JoinSnoc(p[1..], x);
    } else {
      assert (p + [x])[1..] == [x];
    }
  }

  lemma JoinLast(p: seq<string>)
    requires |p| > 1
    ensures Join(p) == Join(p[..|p| - 1]) + (" " + p[|p| - 1])
  {
    assert p == p[..|p| - 1] + [p[|p| - 1]];
    JoinSnoc(p[..|p| - 1], p[|p| - 1]);
  }

  /** Dropping the empty pieces at the end removes exactly the final space of
      the joined text. */
  lemma JoinDropTrailingEmpty(p: seq<string>)
    requires forall k :: 0 <= k < |p| ==> NoWhitespace(p[k])
    requires forall k :: 0 < k < |p| - 1 ==> p[k] != ""
    ensures Join(DropTrailingEmpty(p)) == DropFinalSpace(Join(p))
  {
    if |p| == 1 {
      JoinDropTrailingSingle(p[0]);
    } else if |p| > 1 {
      var init, last := p[..|p| - 1], p[|p| - 1];
      JoinLast(p);
      if last != "" {
        JoinEndsWithLast(init, last);
      } else {
        JoinDropEmptyLast(p, init);
      }
    }
  }

  lemma JoinDropTrailingSingle(w: string)
    requires NoWhitespace(w)
    ensures Join(DropTrailingEmpty([w])) == DropFinalSpace(Join([w]))
  {
    if w != "" {
      assert !IsWhitespace(w[|w| - 1]);
      assert DropTrailingEmpty([w]) == [w];
    } else {
      assert DropTrailingEmpty([w]) == [];
    }
  }

  lemma JoinDropEmptyLast(p: seq<string>, init: seq<string>)
    requires |p| > 1 && init == p[..|p| - 1] && p[|p| - 1] == ""
    requires forall k :: 0 < k < |p| - 1 ==> p[k] != ""
    requires Join(p) == Join(init) + (" " + "")
    ensures Join(DropTrailingEmpty(p)) == DropFinalSpace(Join(p))
  {
    var c := Join(init);
    assert Join(p) == c + " ";
    assert DropFinalSpace(Join(p)) == c by {
      assert (c + " ")[..|c|] == c;
    }
    assert DropTrailingEmpty(p) == DropTrailingEmpty(init);
    if |init| >= 2 {
      assert init[|init| - 1] == p[|p| - 2];
      assert DropTrailingEmpty(init) == init;
    } else if init[0] == "" {
      assert DropTrailingEmpty(init) == [];
    } else {
      assert DropTrailingEmpty(init) == init;
    }
  }

  lemma JoinEndsWithLast(init: seq<string>, last: string)
    requires |init| > 0 && last != "" && NoWhitespace(last)
    ensures DropFinalSpace(Join(init) + (" " + last)) == Join(init) + (" " + last)
  {
    var c := Join(init) + (" " + last);
    assert c[|c| - 1] == last[|last| - 1];
    assert !IsWhitespace(last[|last| - 1]);
  }

  /** Concrete behaviour of split, one case for each rule it follows. */
  lemma SplitEmpty()
    ensures Split("") == [""]
  {
  }

  /** A non-empty string of whitespace only gives no words at all. */
  lemma SplitBlank(s: string)
    requires s != "" && forall i :: 0 <= i < |s| ==> IsWhitespace(s[i])
    ensures Split(s) == []
  {
    assert IsWhitespace(s[0]);
    assert WordEnd(s, 0) == 0;
    assert SpaceEnd(s, 0) == |s|;
    assert PiecesFrom(s, |s|) == [""];
    assert PiecesFrom(s, 0) == ["", ""];
  }

  /** Leading whitespace before a word gives an empty first word, followed by
      at least that word. */
  lemma SplitLeading(s: string)
    requires |s| > 0 && IsWhitespace(s[0])
    requires exists i :: 0 <= i < |s| && !IsWhitespace(s[i])
    ensures |Split(s)| >= 2 && Split(s)[0] == ""
  {
    assert WordEnd(s, 0) == 0;
    var m := SpaceEnd(s, 0);
    assert m < |s|;
    var p := PiecesFrom(s, 0);
    assert p == [""] + PiecesFrom(s, m);
    assert p[1] == s[m..WordEnd(s, m)] != "";
    var r := DropTrailingEmpty(p);
    assert !(|r| <= 1 < |p|) by {
      assert p[1] != "";
    }
    assert r[0] == p[0];
  }

  /** Split keeps no empty word at the end, unless the input is empty. */
  lemma SplitTrailing(s: string)
    requires s != ""
    ensures Split(s) == [] || Split(s)[|Split(s)| - 1] != ""
  {
  }

  lemma SplitTrailingExample()
    ensures Split("a b ") == ["a", "b"]
  {
    var s := "a b ";
    assert IsWhitespace(s[1]);
    assert WordEnd(s, 0) == 1 && SpaceEnd(s, 1) == 2;
    assert WordEnd(s, 2) == 3 && SpaceEnd(s, 3) == 4;
    assert PiecesFrom(s, 4) == [""];
    assert s[2..3] == "b" && s[0..1] == "a";
    assert PiecesFrom(s, 2) == ["b", ""];
    assert PiecesFrom(s, 0) == ["a", "b", ""];
  }

  lemma SplitSentence()
    ensures Split("hi :) there") == ["hi", ":)", "there"]
  {
    var s := "hi :) there";
    assert IsWhitespace(s[2]);
    SentencePieces();
  }

  lemma SentencePieces()
    ensures PiecesFrom("hi :) there", 0) == ["hi", ":)", "there"]
  {
    var s := "hi :) there";
    SentenceBoundaries();
    assert s[6..] == "there" && s[3..5] == ":)" && s[0..2] == "hi";
    assert PiecesFrom(s, 6) == ["there"];
    assert PiecesFrom(s, 3) == [":)", "there"];
  }

  lemma SentenceBoundaries()
    ensures WordEnd("hi :) there", 0) == 2 && SpaceEnd("hi :) there", 2) == 3
    ensures WordEnd("hi :) there", 3) == 5 && SpaceEnd("hi :) there", 5) == 6
    ensures WordEnd("hi :) there", 6) == 11
  {
    var s := "hi :) there";
    assert IsWhitespace(s[2]) && IsWhitespace(s[5]);
  }
}
