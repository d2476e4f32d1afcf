/**
 * The two library string operations the matcher relies on: sorting a list of strings
 * (`Collections.sort`) and splitting at single spaces (`String.split(" ")`).
 */
module Strings {

  // ---------------------------------------------------------------------------------------
  // Lexicographic order
  // ---------------------------------------------------------------------------------------

  /** `a` comes no later than `b` in lexicographic order; the empty string comes first. */
  predicate Below(a: string, b: string)
  {
    |a| == 0 || (|b| != 0 && (a[0] < b[0] || (a[0] == b[0] && Below(a[1..], b[1..]))))
  }

  lemma {:induction false} BelowTotal(a: string, b: string)
    ensures Below(a, b) || Below(b, a)
  {
    if |a| != 0 && |b| != 0 && a[0] == b[0] {
      BelowTotal(a[1..], b[1..]);
    }
  }

  lemma {:induction false} BelowAntisymmetric(a: string, b: string)
    requires Below(a, b) && Below(b, a)
    ensures a == b
  {
    if |a| != 0 {
      BelowAntisymmetric(a[1..], b[1..]);
      assert a == [a[0]] + a[1..] && b == [b[0]] + b[1..];
    }
  }

  lemma {:induction false} BelowTransitive(a: string, b: string, c: string)
    requires Below(a, b) && Below(b, c)
    ensures Below(a, c)
  {
    if |a| != 0 && a[0] == b[0] && b[0] == c[0] {
      BelowTransitive(a[1..], b[1..], c[1..]);
    }
  }

  // ---------------------------------------------------------------------------------------
  // Sorting
  // ---------------------------------------------------------------------------------------

  predicate Sorted(s: seq<string>)
  {
    forall i, j :: 0 <= i < j < |s| ==> Below(s[i], s[j])
  }

  lemma SortedCons(x: string, s: seq<string>)
    requires Sorted(s)
    requires forall y :: y in s ==> Below(x, y)
    ensures Sorted([x] + s)
  {
  }

  /** Puts `x` in front of the first element it comes no later than. */
  function Insert(x: string, s: seq<string>): seq<string>
  {
    if s == [] || Below(x, s[0]) then [x] + s else [s[0]] + Insert(x, s[1..])
  }

  lemma {:induction false} InsertSorted(x: string, s: seq<string>)
    requires Sorted(s)
    ensures Sorted(Insert(x, s))
    ensures multiset(Insert(x, s)) == multiset(s) + multiset{x}
  {
    if s == [] {
    } else if Below(x, s[0]) {
      forall y | y in s ensures Below(x, y) {
        var k :| 0 <= k < |s| && s[k] == y;
        if k > 0 {
          BelowTransitive(x, s[0], y);
        }
      }
      SortedCons(x, s);
    } else {
      BelowTotal(x, s[0]);
      var rest := s[1..];
      assert s == [s[0]] + rest;
      InsertSorted(x, rest);
      var t := Insert(x, rest);
      forall y | y in t ensures Below(s[0], y) {
        assert y in multiset(t);
        if y != x {
          assert y in rest;
          var k :| 0 <= k < |rest| && rest[k] == y;
          assert s[k + 1] == y;
        }
      }
      SortedCons(s[0], t);
    }
  }

  /** The list `Collections.sort` produces: the elements of `s` in lexicographic order. */
  function SortStrings(s: seq<string>): (r: seq<string>)
    ensures Sorted(r)
    ensures multiset(r) == multiset(s)
  {
    if s == [] then []
    else
      var rest := SortStrings(s[1..]);
      InsertSorted(s[0], rest);
      assert s == [s[0]] + s[1..];
      Insert(s[0], rest)
  }

  lemma SortedTail(s: seq<string>)
    requires Sorted(s) && s != []
    ensures Sorted(s[1..])
  {
  }

  lemma TailElements(s: seq<string>)
    requires s != []
    ensures multiset(s[1..]) == multiset(s) - multiset{s[0]}
  {
    assert s == [s[0]] + s[1..];
  }

  /** Two sorted lists with the same elements, counted with multiplicity, are the same list. */
  lemma {:induction false} SortedUnique(a: seq<string>, b: seq<string>)
    requires Sorted(a) && Sorted(b)
    requires multiset(a) == multiset(b)
    ensures a == b
  {
    if a != [] {
      assert |b| == |multiset(b)| == |multiset(a)| == |a|;
      assert a[0] in multiset(b) && b[0] in multiset(a);
      var k :| 0 <= k < |b| && b[k] == a[0];
      var m :| 0 <= m < |a| && a[m] == b[0];
      if k != 0 && m != 0 {
        assert Below(b[0], b[k]);
        assert Below(a[0], a[m]);
        BelowAntisymmetric(a[0], b[0]);
      }
      TailElements(a);
      TailElements(b);
      SortedTail(a);
      SortedTail(b);
      SortedUnique(a[1..], b[1..]);
      assert a == [a[0]] + a[1..] && b == [b[0]] + b[1..];
    }
  }

  /** Sorting two lists gives the same list exactly when they hold the same elements. */
  lemma SortedEqualIffSameElements(a: seq<string>, b: seq<string>)
    ensures SortStrings(a) == SortStrings(b) <==> multiset(a) == multiset(b)
  {
    if multiset(a) == multiset(b) {
      SortedUnique(SortStrings(a), SortStrings(b));
    }
  }

  /** Sorting keeps exactly the same members. */
  lemma SortKeepsMembers(s: seq<string>, x: string)
    ensures x in SortStrings(s) <==> x in s
  {
    assert x in multiset(SortStrings(s)) <==> x in multiset(s);
  }

  /** `Collections.sort` on a list held in an array: insertion sort by adjacent swaps. */
  method Sort(a: array<string>)
    modifies a
    ensures a[..] == SortStrings(old(a[..]))
  {
    var i := 0;
    while i < a.Length
      invariant 0 <= i <= a.Length
      invariant forall p, q :: 0 <= p < q < i ==> Below(a[p], a[q])
      invariant multiset(a[..]) == multiset(old(a[..]))
    {
      var j := i;
      while 0 < j && !Below(a[j - 1], a[j])
        invariant 0 <= j <= i
        invariant forall p, q :: 0 <= p < q <= i && p != j && q != j ==> Below(a[p], a[q])
        invariant forall q :: j < q <= i ==> Below(a[j], a[q])
        invariant multiset(a[..]) == multiset(old(a[..]))
        decreases j
      {
        BelowTotal(a[j - 1], a[j]);
        a[j - 1], a[j] := a[j], a[j - 1];
        j := j - 1;
      }
      forall p | 0 <= p < j - 1
        ensures Below(a[p], a[j])
      {
        BelowTransitive(a[p], a[j - 1], a[j]);
      }
      i := i + 1;
    }
    SortedUnique(a[..], SortStrings(old(a[..])));
  }

  // ---------------------------------------------------------------------------------------
  // Splitting at spaces
  // ---------------------------------------------------------------------------------------

  /** The pieces of `s` between single spaces, empty pieces included. */
  function Fields(s: string): (r: seq<string>)
    ensures |r| >= 1
    ensures forall t :: t in r ==> ' ' !in t
    ensures ' ' !in s ==> r == [s]
  {
    if |s| == 0 then [""]
    else
      var rest := Fields(s[1..]);
      if s[0] == ' ' then [""] + rest
      else
        assert ' ' !in [s[0]] + rest[0];
        assert ' ' !in s ==> ' ' !in s[1..] && rest == [s[1..]] && s == [s[0]] + s[1..];
        [[s[0]] + rest[0]] + rest[1..]
  }

  /** The pieces put back together with one space between neighbours. */
  function Join(pieces: seq<string>): string
    requires |pieces| >= 1
  {
    if |pieces| == 1 then pieces[0] else pieces[0] + " " + Join(pieces[1..])
  }

  lemma {:induction false} JoinFields(s: string)
    ensures Join(Fields(s)) == s
  {
    if |s| != 0 {
      var rest := Fields(s[1..]);
      JoinFields(s[1..]);
      if s[0] == ' ' {
        assert Fields(s) == [""] + rest;
        assert Fields(s)[1..] == rest;
      } else {
        var f := Fields(s);
        assert f == [[s[0]] + rest[0]] + rest[1..];
        if |rest| == 1 {
          assert f == [[s[0]] + rest[0]];
        } else {
          assert f[1..] == rest[1..];
          assert Join(rest) == rest[0] + " " + Join(rest[1..]);
        }
        assert s == [s[0]] + s[1..];
      }
    }
  }

  /** Drops the empty pieces at the end, as `split` does when no limit is given. */
  function DropTrailingEmpty(pieces: seq<string>): (r: seq<string>)
    ensures r <= pieces
    ensures r == [] || r[|r| - 1] != ""
    ensures forall k :: |r| <= k < |pieces| ==> pieces[k] == ""
  {
    if pieces == [] || pieces[|pieces| - 1] != "" then pieces
    else DropTrailingEmpty(pieces[..|pieces| - 1])
  }

  /**
   * `s.split(" ")`: a string without a space comes back whole (even the empty string);
   * otherwise its fields, without the empty ones at the end.
   */
  function Split(s: string): (r: seq<string>)
    ensures forall t :: t in r ==> ' ' !in t
    ensures ' ' !in s ==> r == [s]
    ensures ' ' in s ==> r <= Fields(s) && forall k :: |r| <= k < |Fields(s)| ==> Fields(s)[k] == ""
    ensures ' ' in s ==> r == [] || r[|r| - 1] != ""
  {
    if ' ' in s then DropTrailingEmpty(Fields(s)) else [s]
  }
}
