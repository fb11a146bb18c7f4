/**
 * The string helpers of `HelperFunctions`: splitting on a delimiter, erasing
 * every occurrence of a word, the (inert) replace routine and the extraction
 * of a class name from a compiler-generated type name.
 */
module Strings {
  import opened Wrappers

  /** `w` occurs in `s` starting at index `j`. */
  predicate OccursAt(s: string, w: string, j: nat) {
    j + |w| <= |s| && s[j..j + |w|] == w
  }

  /** `std::string::find(w, from)`: the first occurrence of `w` at or after `from`. */
  function Find(s: string, w: string, from: nat): (r: Option<nat>)
    decreases |s| - from
    ensures r.Some? ==> from <= r.value && OccursAt(s, w, r.value)
    ensures r.Some? ==> forall j :: from <= j < r.value ==> !OccursAt(s, w, j)
    ensures r.None? ==> forall j :: from <= j ==> !OccursAt(s, w, j)
  {
    if from + |w| > |s| then None
    else if s[from..from + |w|] == w then Some(from)
    else Find(s, w, from + 1)
  }

  /** `std::string::find_last_of(c)`: the last index holding `c`. */
  function LastIndexOf(s: string, c: char): (r: Option<nat>)
    ensures r.Some? ==> r.value < |s| && s[r.value] == c
    ensures r.Some? ==> forall j :: r.value < j < |s| ==> s[j] != c
    ensures r.None? ==> forall j :: 0 <= j < |s| ==> s[j] != c
  {
    if s == [] then None
    else if s[|s| - 1] == c then Some(|s| - 1)
    else LastIndexOf(s[..|s| - 1], c)
  }

  // ---------------------------------------------------------------------
  // SplitString

  /**
   * The token list that the loop of `SplitString` builds once it has reached
   * `start` with `tokens` collected so far.
   */
  function SplitFrom(str: string, delim: string, maxElements: int, start: nat, tokens: seq<string>): seq<string>
    requires EndsLoop(delim, maxElements, tokens) && start <= |str|
    decreases |str| - start
  {
    match Find(str, delim, start)
    case None =>
      if str[start..] != "" then tokens + [str[start..]] else tokens
    case Some(next) =>
      var piece := str[start..next];
      var tokens' := if piece != "" then tokens + [piece] else tokens;
      var start' := next + |delim|;
      if maxElements > 0 && |tokens'| == maxElements - 1 then tokens' + [str[start'..]]
      else SplitFrom(str, delim, maxElements, start', tokens')
  }

  /**
   * The loop of `SplitString` ends: with an empty delimiter every search
   * finds "" where it starts, so only a cap of one, reached on the first
   * pass, stops it.
   */
  predicate EndsLoop(delim: string, maxElements: int, tokens: seq<string>) {
    |delim| > 0 || (maxElements == 1 && tokens == [])
  }

  function Split(str: string, delim: string, maxElements: int): seq<string>
    requires |delim| > 0 || maxElements == 1
  {
    SplitFrom(str, delim, maxElements, 0, [])
  }

  /**
   * One pass of `SplitString`'s loop from `start`: either the loop ends with
   * the whole token list, or it moves past the next delimiter with the
   * remaining split unchanged.
   */
  method SplitStep(str: string, delim: string, maxElements: int, start: nat, tokens: seq<string>)
    returns (tokens': seq<string>, start': nat, done: bool)
    requires EndsLoop(delim, maxElements, tokens) && start <= |str|
    ensures done ==> tokens' == SplitFrom(str, delim, maxElements, start, tokens)
    ensures !done ==> start < start' <= |str| && EndsLoop(delim, maxElements, tokens') &&
                      SplitFrom(str, delim, maxElements, start', tokens') == SplitFrom(str, delim, maxElements, start, tokens)
  {
    var next := Find(str, delim, start);
    if next.None? {
      tokens' := tokens;
      if str[start..] != "" {
        tokens' := tokens + [str[start..]];
      }
      return tokens', start, true;
    }
    var piece := str[start..next.value];
    tokens' := tokens;
    if piece != "" {
      tokens' := tokens + [piece];
    }
    start' := next.value + |delim|;
    done := maxElements > 0 && |tokens'| == maxElements - 1;
    if done {
      tokens' := tokens' + [str[start'..]];
    }
  }

  /** `SplitString(str, delimiter, max_elements)`. */
  method SplitString(str: string, delim: string, maxElements: int) returns (tokens: seq<string>)
    requires |delim| > 0 || maxElements == 1
    ensures tokens == Split(str, delim, maxElements)
  {
    tokens := [];
    var start: nat := 0;
    while true
      invariant start <= |str| && EndsLoop(delim, maxElements, tokens)
      invariant SplitFrom(str, delim, maxElements, start, tokens) == Split(str, delim, maxElements)
      decreases |str| - start
    {
      var tokens', start', done := SplitStep(str, delim, maxElements, start, tokens);
      if done {
        return tokens';
      }
      tokens, start := tokens', start';
    }
  }

  predicate NoEmptyToken(tokens: seq<string>) {
    forall i :: 0 <= i < |tokens| ==> tokens[i] != ""
  }

  /** Appending a non-empty piece keeps a token list free of empty tokens. */
  lemma NoEmptyAppend(tokens: seq<string>, piece: string)
    requires NoEmptyToken(tokens)
    ensures NoEmptyToken(if piece != "" then tokens + [piece] else tokens)
  {
  }

  lemma {:induction false} SplitFromNonEmpty(str: string, delim: string, start: nat, tokens: seq<string>)
    requires |delim| > 0 && start <= |str|
    requires NoEmptyToken(tokens)
    ensures NoEmptyToken(SplitFrom(str, delim, 0, start, tokens))
    decreases |str| - start
  {
    var r := SplitFrom(str, delim, 0, start, tokens);
    var f := Find(str, delim, start);
    if f.None? {
      var last := str[start..];
      assert r == if last != "" then tokens + [last] else tokens;
      NoEmptyAppend(tokens, last);
    } else {
      var next := f.value;
      var piece := str[start..next];
      var tokens' := if piece != "" then tokens + [piece] else tokens;
      NoEmptyAppend(tokens, piece);
      assert r == SplitFrom(str, delim, 0, next + |delim|, tokens');
      SplitFromNonEmpty(str, delim, next + |delim|, tokens');
    }
  }

  /** Without a cap, leading, trailing and repeated delimiters yield no empty token. */
  lemma SplitDropsEmptyPieces(str: string, delim: string)
    requires |delim| > 0
    ensures NoEmptyToken(Split(str, delim, 0))
  {
    SplitFromNonEmpty(str, delim, 0, []);
  }

  /** Without any occurrence of the delimiter the result is `[str]`, or `[]` for an empty string. */
  lemma SplitWithoutDelimiter(str: string, delim: string, maxElements: int)
    requires |delim| > 0
    requires forall j :: !OccursAt(str, delim, j)
    ensures Split(str, delim, maxElements) == if str == "" then [] else [str]
  {
    assert str[0..] == str;
  }

  lemma {:induction false} SplitFromBounded(str: string, delim: string, maxElements: int, start: nat, tokens: seq<string>)
    requires |delim| > 0 && start <= |str|
    requires maxElements >= 2 && |tokens| < maxElements - 1
    ensures |SplitFrom(str, delim, maxElements, start, tokens)| <= maxElements
    decreases |str| - start
  {
    var r := SplitFrom(str, delim, maxElements, start, tokens);
    var f := Find(str, delim, start);
    if f.None? {
      assert r == if str[start..] != "" then tokens + [str[start..]] else tokens;
    } else {
      var next := f.value;
      var tokens' := PassTokens(str, start, next, tokens);
      if |tokens'| == maxElements - 1 {
        assert r == tokens' + [str[next + |delim|..]];
      } else {
        assert r == SplitFrom(str, delim, maxElements, next + |delim|, tokens');
        SplitFromBounded(str, delim, maxElements, next + |delim|, tokens');
      }
    }
  }

  /** With a cap of at least two, at most that many tokens come back. */
  lemma SplitCapped(str: string, delim: string, maxElements: int)
    requires |delim| > 0 && maxElements >= 2
    ensures |Split(str, delim, maxElements)| <= maxElements
  {
    SplitFromBounded(str, delim, maxElements, 0, []);
  }

  /**
   * An empty delimiter with a cap of one gives the whole string as the only
   * token, even when the string is empty.
   */
  lemma SplitEmptyDelimiter(str: string)
    ensures Split(str, "", 1) == [str]
  {
    assert str[0..0] == "";
    assert str[0..] == str;
  }

  /** A search in a prefix finds what the search in the whole string finds, if it fits in the prefix. */
  lemma FindInPrefix(str: string, w: string, from: nat, n: nat)
    requires |w| > 0 && from <= n <= |str|
    ensures var f := Find(str, w, from);
            Find(str[..n], w, from) == if f.Some? && f.value + |w| <= n then f else None
  {
    var p := str[..n];
    forall j: nat | j + |w| <= n ensures OccursAt(p, w, j) <==> OccursAt(str, w, j) {
      assert p[j..j + |w|] == str[j..j + |w|];
    }
    var f, g := Find(str, w, from), Find(p, w, from);
    if g.Some? {
      assert OccursAt(str, w, g.value);
    }
    if f.Some? && f.value + |w| <= n {
      assert OccursAt(p, w, f.value);
    }
  }

  /** The tokens after one pass from `start` that finds the delimiter at `next`. */
  function PassTokens(str: string, start: nat, next: nat, tokens: seq<string>): seq<string>
    requires start <= next <= |str|
  {
    if str[start..next] != "" then tokens + [str[start..next]] else tokens
  }

  /**
   * Cut just before the delimiter at `next`, the uncapped split from `start`
   * makes the pass's piece its last token.
   */
  lemma SplitPrefixLast(str: string, delim: string, start: nat, tokens: seq<string>, next: nat)
    requires |delim| > 0 && start <= |str| && Find(str, delim, start) == Some(next)
    ensures SplitFrom(str[..next], delim, 0, start, tokens) == PassTokens(str, start, next, tokens)
  {
    FindInPrefix(str, delim, start, next);
    assert str[..next][start..] == str[start..next];
  }

  /**
   * Cut at or after the end of the delimiter at `next`, the uncapped split
   * from `start` passes that delimiter as the whole string's split does.
   */
  lemma SplitPrefixStep(str: string, delim: string, start: nat, tokens: seq<string>, next: nat, i: nat)
    requires |delim| > 0 && start <= |str| && Find(str, delim, start) == Some(next)
    requires next + |delim| <= i <= |str|
    ensures SplitFrom(str[..i], delim, 0, start, tokens) ==
            SplitFrom(str[..i], delim, 0, next + |delim|, PassTokens(str, start, next, tokens))
  {
    FindInPrefix(str, delim, start, i);
    assert str[..i][start..next] == str[start..next];
  }

  /**
   * The loop's result r ends just after a delimiter at i: its last token is
   * everything after that delimiter, and the tokens before it are what an
   * uncapped split from `start` of the text up to i gives.
   */
  ghost predicate CapShapeAt(str: string, delim: string, r: seq<string>, start: nat, tokens: seq<string>, i: nat) {
    && |delim| > 0 && |r| > 0 && start <= i && OccursAt(str, delim, i)
    && r[|r| - 1] == str[i + |delim|..]
    && r[..|r| - 1] == SplitFrom(str[..i], delim, 0, start, tokens)
  }

  /** The loop from `start` with `tokens`, once it reaches the cap, has that shape at some delimiter. */
  lemma {:induction false} SplitFromCapShape(str: string, delim: string, maxElements: int, start: nat, tokens: seq<string>)
    requires |delim| > 0 && start <= |str| && maxElements >= 2 && |tokens| < maxElements - 1
    ensures var r := SplitFrom(str, delim, maxElements, start, tokens);
            |r| == maxElements ==> exists i: nat :: CapShapeAt(str, delim, r, start, tokens, i)
    decreases |str| - start
  {
    var r := SplitFrom(str, delim, maxElements, start, tokens);
    var f := Find(str, delim, start);
    if f.Some? {
      var next := f.value;
      var tokens' := PassTokens(str, start, next, tokens);
      if |tokens'| == maxElements - 1 {
        assert r == tokens' + [str[next + |delim|..]];
        SplitPrefixLast(str, delim, start, tokens, next);
        assert CapShapeAt(str, delim, r, start, tokens, next);
      } else {
        assert r == SplitFrom(str, delim, maxElements, next + |delim|, tokens');
        SplitFromCapShape(str, delim, maxElements, next + |delim|, tokens');
        if |r| == maxElements {
          var i: nat :| CapShapeAt(str, delim, r, next + |delim|, tokens', i);
          SplitPrefixStep(str, delim, start, tokens, next, i);
          assert CapShapeAt(str, delim, r, start, tokens, i);
        }
      }
    }
  }

  /**
   * With a cap of at least two that is reached, the last token is the
   * unsplit text after some delimiter, and the tokens before it are what an
   * uncapped split of the text before that delimiter gives.
   */
  lemma SplitCapShape(str: string, delim: string, maxElements: int)
    requires |delim| > 0 && maxElements >= 2
    ensures var r := Split(str, delim, maxElements);
            |r| == maxElements ==>
              exists i: nat :: OccursAt(str, delim, i) && r[|r| - 1] == str[i + |delim|..] &&
                               r[..|r| - 1] == Split(str[..i], delim, 0)
  {
    SplitFromCapShape(str, delim, maxElements, 0, []);
    var r := Split(str, delim, maxElements);
    if |r| == maxElements {
      var i: nat :| CapShapeAt(str, delim, r, 0, [], i);
    }
  }

  /** When the cap is reached, the last token is the unsplit remainder, which may be empty. */
  lemma SplitCapRemainder()
    ensures Split("a,b,", ",", 2) == ["a", "b,"]
    ensures Split("a,,", ",", 2) == ["a", ","]
    ensures Split("a,b,", ",", 0) == ["a", "b"]
  {
    assert "a,b,"[0..1] == "a" && "a,b,"[1..2] == ",";
    assert Find("a,b,", ",", 0) == Some(1);
    assert "a,b,"[0..1] == "a" && "a,b,"[2..] == "b,";
    assert Split("a,b,", ",", 2) == ["a", "b,"];
    assert "a,,"[0..1] == "a" && "a,,"[1..2] == ",";
    assert Find("a,,", ",", 0) == Some(1);
    assert "a,,"[2..] == ",";
    assert Split("a,,", ",", 2) == ["a", ","];
    assert "a,b,"[2..3] == "b" && "a,b,"[3..4] == ",";
    assert Find("a,b,", ",", 2) == Some(3);
    assert Find("a,b,", ",", 4) == None;
    assert "a,b,"[4..] == "";
  }

  // ---------------------------------------------------------------------
  // EraseWordFromString

  /** `erase(i, |w|)`: the string without the occurrence of `w` at i. */
  function EraseOne(s: string, w: string, i: nat): (r: string)
    requires OccursAt(s, w, i)
    ensures |r| == |s| - |w|
  {
    s[..i] + s[i + |w|..]
  }

  /** What the erase loop leaves once it is about to search from `from`. */
  function EraseFrom(s: string, w: string, from: nat): string
    requires |w| > 0
    decreases |s|
  {
    match Find(s, w, from)
    case None => s
    case Some(i) => EraseFrom(EraseOne(s, w, i), w, i)
  }

  /** The number of erasures that loop performs. */
  function EraseCount(s: string, w: string, from: nat): nat
    requires |w| > 0
    decreases |s|
  {
    match Find(s, w, from)
    case None => 0
    case Some(i) => 1 + EraseCount(EraseOne(s, w, i), w, i)
  }

  /** A search from the start finds the word exactly when it occurs somewhere. */
  lemma FindFromStart(s: string, w: string)
    ensures Find(s, w, 0).Some? <==> exists j :: OccursAt(s, w, j)
  {
    if Find(s, w, 0).Some? {
      assert OccursAt(s, w, Find(s, w, 0).value);
    }
  }

  /** `EraseWordFromString(mainWord, wordToLookFor)`: erases in place, reports whether anything was found. */
  method EraseWordFromString(mainWord: string, word: string) returns (result: string, foundAny: bool)
    requires |word| > 0
    ensures foundAny <==> exists j :: OccursAt(mainWord, word, j)
    ensures result == EraseFrom(mainWord, word, 0)
  {
    result := mainWord;
    var from := 0;
    var iter := Find(result, word, 0);
    FindFromStart(mainWord, word);
    foundAny := iter.Some?;
    while iter.Some?
      invariant iter == Find(result, word, from)
      invariant EraseFrom(result, word, from) == EraseFrom(mainWord, word, 0)
      decreases |result|
    {
      var i := iter.value;
      result := EraseOne(result, word, i);
      from := i;
      iter := Find(result, word, i);
    }
  }

  /** Each erasure removes exactly one copy of the word. */
  lemma {:induction false} EraseLength(s: string, w: string, from: nat)
    requires |w| > 0
    ensures |EraseFrom(s, w, from)| == |s| - EraseCount(s, w, from) * |w|
    decreases |s|
  {
    match Find(s, w, from)
    case None =>
    case Some(i) =>
      var s' := EraseOne(s, w, i);
      EraseLength(s', w, i);
      calc {
        |EraseFrom(s, w, from)|;
        |s'| - EraseCount(s', w, i) * |w|;
        |s| - |w| - EraseCount(s', w, i) * |w|;
        { assert (1 + EraseCount(s', w, i)) * |w| == |w| + EraseCount(s', w, i) * |w|; }
        |s| - EraseCount(s, w, from) * |w|;
      }
  }

  /** A word that does not occur leaves the string unchanged. */
  lemma EraseAbsent(s: string, w: string)
    requires |w| > 0 && forall j :: !OccursAt(s, w, j)
    ensures EraseFrom(s, w, 0) == s && EraseCount(s, w, 0) == 0
  {
  }

  /**
   * The search resumes at the erase point, so an occurrence formed by joining
   * the text around an erased copy is kept.
   */
  lemma EraseKeepsJoinedOccurrence()
    ensures EraseFrom("aabb", "ab", 0) == "ab"
  {
    assert "aabb"[0..2] == "aa" && "aabb"[1..3] == "ab";
    assert !OccursAt("aabb", "ab", 0);
    assert Find("aabb", "ab", 0) == Some(1);
    var s' := "aabb"[..1] + "aabb"[3..];
    assert s' == "ab";
    assert !OccursAt("ab", "ab", 1);
    assert Find("ab", "ab", 1) == None;
  }

  // ---------------------------------------------------------------------
  // StringReplace

  /**
   * `StringReplace(word, oldVal, newVal)`: builds a replaced copy in a local
   * variable that is never written back, and reports success.
   */
  method StringReplace(word: string, oldVal: string, newVal: string) returns (result: string, ok: bool)
    ensures result == word && ok
  {
    var finalWord := "";
    var index := 0;
    while index < |word|
      invariant 0 <= index <= |word|
    {
      var end := if index + |oldVal| <= |word| then index + |oldVal| else |word|;
      if word[index..end] == oldVal {
        finalWord := finalWord + newVal;
      } else {
        finalWord := finalWord + [word[index]];
      }
      index := index + 1;
    }
    result := word;
    ok := true;
  }

  // ---------------------------------------------------------------------
  // Class names

  /** The text after the last `:`, or the whole text when there is none. */
  function AfterLastColon(s: string): (r: string)
    ensures forall j :: 0 <= j < |r| ==> r[j] != ':'
    ensures |r| <= |s| && r == s[|s| - |r|..]
  {
    match LastIndexOf(s, ':')
    case Some(loc) => s[loc + 1..]
    case None => s
  }

  /** `GetClassName<T>()` applied to the compiler's name for T. */
  function ClassName(typeName: string): string {
    AfterLastColon(EraseFrom(EraseFrom(typeName, "class ", 0), "struct ", 0))
  }

  /** `GetClassDisplayName<T>()`: also erases `Component`, before the other words. */
  function ClassDisplayName(typeName: string): string {
    AfterLastColon(EraseFrom(EraseFrom(EraseFrom(typeName, "Component", 0), "class ", 0), "struct ", 0))
  }

  /** A class name never contains a scope separator. */
  lemma ClassNameHasNoColon(typeName: string)
    ensures forall j :: 0 <= j < |ClassName(typeName)| ==> ClassName(typeName)[j] != ':'
    ensures forall j :: 0 <= j < |ClassDisplayName(typeName)| ==> ClassDisplayName(typeName)[j] != ':'
  {
  }

  /** A plain, unqualified name without the erased words is its own class name. */
  lemma ClassNameOfPlainName(typeName: string)
    requires forall j :: !OccursAt(typeName, "class ", j) && !OccursAt(typeName, "struct ", j)
    requires forall j :: 0 <= j < |typeName| ==> typeName[j] != ':'
    ensures ClassName(typeName) == typeName
  {
    EraseAbsent(typeName, "class ");
    EraseAbsent(typeName, "struct ");
  }

  /** The display name is the class name of the type name with `Component` erased. */
  lemma DisplayNameErasesComponent(typeName: string)
    ensures ClassDisplayName(typeName) == ClassName(EraseFrom(typeName, "Component", 0))
  {
  }
}
