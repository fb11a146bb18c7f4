/**
 * The unique-name search of `ObjectPropertyRegister::CreateNew`: when the
 * requested name is already used by a live object, a `(1)` suffix is added
 * (unless the name already ends in `)`), and then the number after the last
 * `(` is bumped until the name is free.
 */
module Naming {
  import Decimal
  import Strings
  import opened Wrappers

  predicate EndsWithParen(s: string) {
    |s| > 0 && s[|s| - 1] == ')'
  }

  /**
   * The first rewrite: append `(1)` unless the last `)` is the last character
   * (`find_last_of(")")` is npos, or is not `size() - 1`).
   */
  function Appended(name: string): (r: string)
    ensures EndsWithParen(r)
    ensures EndsWithParen(name) ==> r == name
    ensures !EndsWithParen(name) ==> r == name + "(1)"
  {
    match Strings.LastIndexOf(name, ')')
    case Some(j) => if j == |name| - 1 then name else name + "(1)"
    case None => name + "(1)"
  }

  /**
   * `find_last_of("(") + 1`, where npos + 1 wraps to 0: the start of the
   * number that is bumped.
   */
  function SuffixStart(s: string): (p: nat)
    ensures p <= |s|
    ensures p > 0 ==> s[p - 1] == '('
    ensures forall j :: p <= j < |s| ==> s[j] != '('
    ensures p == 0 ==> forall j :: 0 <= j < |s| ==> s[j] != '('
  {
    match Strings.LastIndexOf(s, '(')
    case Some(j) => j + 1
    case None => 0
  }

  /** `std::string::replace(pos, count, t)`: the count is clipped to the end of the string. */
  function Replace(s: string, pos: nat, count: nat, t: string): (r: string)
    requires pos <= |s|
    ensures |r| == pos + |t| + (|s| - if pos + count <= |s| then pos + count else |s|)
    ensures r[..pos] == s[..pos] && r[pos..pos + |t|] == t
  {
    s[..pos] + t + s[(if pos + count <= |s| then pos + count else |s|)..]
  }

  /** The position of the bumped number never reaches past the closing `)`. */
  lemma SuffixStartInside(name: string)
    ensures SuffixStart(Appended(name)) < |Appended(name)|
  {
  }

  /**
   * The k-th name tried once `name` was found taken: the appended form for
   * k = 0, and for k >= 1 the appended form whose single character after the
   * last `(` is replaced by the decimal digits of k + 1.
   */
  function Candidate(name: string, k: nat): string {
    var n0 := Appended(name);
    var p := SuffixStart(n0);
    SuffixStartInside(name);
    if k == 0 then n0 else n0[..p] + Decimal.Dec(k + 1) + n0[p + 1..]
  }

  /** The digits written in never contain `(`, so the bump position is stable. */
  lemma {:induction false} CandidateSuffixStart(name: string, k: nat)
    ensures SuffixStart(Candidate(name, k)) == SuffixStart(Appended(name))
  {
    var n0 := Appended(name);
    var p := SuffixStart(n0);
    SuffixStartInside(name);
    if k > 0 {
      var d := Decimal.Dec(k + 1);
      var c := Candidate(name, k);
      assert c == n0[..p] + d + n0[p + 1..];
      assert forall j :: p <= j < |c| ==> c[j] != '(' by {
        forall j | p <= j < |c|
          ensures c[j] != '('
        {
          if j < p + |d| {
            assert c[j] == d[j - p];
            assert Decimal.IsDigit(d[j - p]);
          } else {
            assert c[j] == n0[j - |d| + 1];
          }
        }
      }
      var q := SuffixStart(c);
      if p > 0 {
        assert c[p - 1] == '(';
      } else {
        assert q == 0;
      }
    }
  }

  /** One pass of the loop body turns candidate k into candidate k + 1. */
  lemma NextCandidate(name: string, k: nat)
    ensures var c := Candidate(name, k);
            Replace(c, SuffixStart(c), |Decimal.Dec(k + 1)|, Decimal.Dec(k + 2)) == Candidate(name, k + 1)
  {
    var n0 := Appended(name);
    var p := SuffixStart(n0);
    SuffixStartInside(name);
    CandidateSuffixStart(name, k);
    var c := Candidate(name, k);
    if k == 0 {
      assert |Decimal.Dec(1)| == 1;
    } else {
      var d := Decimal.Dec(k + 1);
      assert c == n0[..p] + d + n0[p + 1..];
      assert c[..p] == n0[..p];
      assert c[p + |d|..] == n0[p + 1..];
    }
  }

  /** Candidates after the first are pairwise different. */
  lemma CandidatesDistinct(name: string, j: nat, k: nat)
    requires 1 <= j && 1 <= k && j != k
    ensures Candidate(name, j) != Candidate(name, k)
  {
    var n0 := Appended(name);
    var p := SuffixStart(n0);
    SuffixStartInside(name);
    var dj, dk := Decimal.Dec(j + 1), Decimal.Dec(k + 1);
    var cj, ck := Candidate(name, j), Candidate(name, k);
    Decimal.DecInjective(j + 1, k + 1);
    if |dj| != |dk| {
      assert |cj| != |ck|;
    } else {
      assert cj[p..p + |dj|] == dj;
      assert ck[p..p + |dk|] == dk;
    }
  }

  /** The candidates 1 .. k-1 already tried. */
  function Tried(name: string, k: nat): (t: set<string>)
    ensures forall j :: 1 <= j < k ==> Candidate(name, j) in t
  {
    if k <= 1 then {} else Tried(name, k - 1) + {Candidate(name, k - 1)}
  }

  lemma {:induction false} TriedOnlyEarlier(name: string, k: nat, c: string)
    requires c in Tried(name, k)
    ensures exists j :: 1 <= j < k && c == Candidate(name, j)
  {
    if c != Candidate(name, k - 1) {
      TriedOnlyEarlier(name, k - 1, c);
    }
  }

  lemma TriedGrows(name: string, k: nat)
    requires k >= 1
    ensures Candidate(name, k) !in Tried(name, k)
    ensures Tried(name, k + 1) == Tried(name, k) + {Candidate(name, k)}
  {
    if Candidate(name, k) in Tried(name, k) {
      TriedOnlyEarlier(name, k, Candidate(name, k));
      var j :| 1 <= j < k && Candidate(name, j) == Candidate(name, k);
      CandidatesDistinct(name, j, k);
    }
  }

  /** Each pass past the first tries a name not tried before. */
  lemma TriedShrinksRemaining(name: string, taken: set<string>, k: nat)
    requires Candidate(name, k) in taken
    ensures k == 0 ==> Tried(name, k + 1) == Tried(name, k)
    ensures k >= 1 ==> |taken - Tried(name, k + 1)| < |taken - Tried(name, k)|
  {
    if k >= 1 {
      TriedGrows(name, k);
      var c := Candidate(name, k);
      assert taken - Tried(name, k) == (taken - Tried(name, k + 1)) + {c};
    }
  }

  /** A taken candidate k extends the run of taken candidates 0 .. k-1 by one. */
  lemma TakenPrefixGrows(name: string, taken: set<string>, k: nat)
    requires forall j :: 0 <= j < k ==> Candidate(name, j) in taken
    requires Candidate(name, k) in taken
    ensures forall j :: 0 <= j < k + 1 ==> Candidate(name, j) in taken
  {
  }

  /**
   * One pass of the bump loop: the decimal inside the trailing parentheses,
   * index - 1, is replaced by index, which turns candidate k into candidate k + 1.
   */
  method BumpSuffix(r: string, index: nat, ghost name: string, ghost k: nat) returns (r': string)
    requires index == k + 2 && r == Candidate(name, k)
    ensures r' == Candidate(name, k + 1)
  {
    var p := SuffixStart(r);
    var d := Decimal.Dec(index);
    r' := Replace(r, p, |Decimal.Dec(index - 1)|, d);
    assert index - 1 == k + 1;
    NextCandidate(name, k);
  }

  /**
   * The name-disambiguation loop of `CreateNew`; `taken` is the set of names
   * `FindObjectByName` finds. The result is free; it is the request itself when
   * that is free, and otherwise the first free candidate.
   */
  method DisambiguateName(name: string, taken: set<string>) returns (r: string)
    ensures r !in taken
    ensures name !in taken ==> r == name
    ensures name in taken ==> exists k: nat :: r == Candidate(name, k) &&
                                               forall j :: 0 <= j < k ==> Candidate(name, j) in taken
  {
    r := name;
    var index: nat := 1;
    if r !in taken {
      // neither the append nor the bump loop changes a free name
      return;
    }
    r := Appended(r);
    ghost var k: nat := 0;
    while r in taken
      invariant index == k + 1
      invariant r == Candidate(name, k)
      invariant forall j :: 0 <= j < k ==> Candidate(name, j) in taken
      decreases |taken - Tried(name, k)|, if k == 0 then 1 else 0
    {
      TriedShrinksRemaining(name, taken, k);
      TakenPrefixGrows(name, taken, k);
      index := index + 1;
      r := BumpSuffix(r, index, name, k);
      k := k + 1;
    }
    assert r == Candidate(name, k) && forall j :: 0 <= j < k ==> Candidate(name, j) in taken;
  }

  /** Repeated requests for the same name give `Root`, `Root(1)`, `Root(2)`. */
  lemma RootSequence()
    ensures Candidate("Root", 0) == "Root(1)"
    ensures Candidate("Root", 1) == "Root(2)"
    ensures Candidate("Root(1)", 1) == "Root(2)"
  {
    assert Strings.LastIndexOf("Root", ')') == None;
    var n0 := "Root(1)";
    assert Appended("Root") == n0;
    assert Strings.LastIndexOf(n0, '(') == Some(4);
    assert n0[..5] + Decimal.Dec(2) + n0[6..] == "Root(2)";
    assert Strings.LastIndexOf(n0, ')') == Some(6);
  }

  /**
   * A taken name such as `a(2)` makes the first bump produce the same name, so
   * the loop needs one extra pass before `a(3)`.
   */
  lemma BumpCanRepeatName()
    ensures Candidate("a(2)", 0) == "a(2)" && Candidate("a(2)", 1) == "a(2)"
    ensures Candidate("a(2)", 2) == "a(3)"
  {
    var n0 := "a(2)";
    assert Strings.LastIndexOf(n0, ')') == Some(3);
    assert Strings.LastIndexOf(n0, '(') == Some(1);
    assert n0[..2] + Decimal.Dec(2) + n0[3..] == "a(2)";
    assert n0[..2] + Decimal.Dec(3) + n0[3..] == "a(3)";
  }

  /**
   * A taken name that ends in `)` without any `(` has its first character
   * overwritten: the npos + 1 position is 0.
   */
  lemma BumpWithoutOpenParen()
    ensures Candidate("Box)", 1) == "2ox)"
  {
    var n0 := "Box)";
    assert Strings.LastIndexOf(n0, ')') == Some(3);
    assert Strings.LastIndexOf(n0, '(') == None;
    assert n0[..0] + Decimal.Dec(2) + n0[1..] == "2ox)";
  }
}
