/** Lists without repetitions, as the algebra of model names uses them: the
    first occurrence of a name counts and the order of the names is kept. */
module NameLists {

  predicate Distinct<T(==)>(s: seq<T>) {
    forall i, j | 0 <= i < j < |s| :: s[i] != s[j]
  }

  function Uniq<T(==)>(s: seq<T>): seq<T> {
    if s == [] then []
    else
      var q := Uniq(s[..|s| - 1]);
      if s[|s| - 1] in q then q else q + [s[|s| - 1]]
  }

  /** The names of s that are not in r, in the order of s. */
  function Minus<T(==)>(s: seq<T>, r: seq<T>): seq<T> {
    if s == [] then []
    else Minus(s[..|s| - 1], r) + (if s[|s| - 1] in r then [] else [s[|s| - 1]])
  }

  /** The names of s that are also in r, in the order of s. */
  function Meet<T(==)>(s: seq<T>, r: seq<T>): seq<T> {
    if s == [] then []
    else Meet(s[..|s| - 1], r) + (if s[|s| - 1] in r then [s[|s| - 1]] else [])
  }

  lemma {:induction false} UniqIs<T(!new)>(s: seq<T>)
    ensures forall x :: x in Uniq(s) <==> x in s
    ensures Distinct(Uniq(s))
  {
    if s != [] {
      UniqIs(s[..|s| - 1]);
    }
  }

  lemma {:induction false} UniqOfDistinct<T>(s: seq<T>)
    requires Distinct(s)
    ensures Uniq(s) == s
  {
    if s != [] {
      UniqOfDistinct(s[..|s| - 1]);
    }
  }

  lemma {:induction false} MinusIs<T(!new)>(s: seq<T>, r: seq<T>)
    ensures forall x :: x in Minus(s, r) <==> x in s && x !in r
    ensures Distinct(s) ==> Distinct(Minus(s, r))
  {
    if s != [] {
      MinusIs(s[..|s| - 1], r);
    }
  }

  lemma {:induction false} MeetIs<T(!new)>(s: seq<T>, r: seq<T>)
    ensures forall x :: x in Meet(s, r) <==> x in s && x in r
    ensures Distinct(s) ==> Distinct(Meet(s, r))
  {
    if s != [] {
      MeetIs(s[..|s| - 1], r);
    }
  }

  lemma {:induction false} MinusNothing<T>(s: seq<T>, r: seq<T>)
    requires forall x | x in s :: x !in r
    ensures Minus(s, r) == s
  {
    if s != [] {
      MinusNothing(s[..|s| - 1], r);
    }
  }

  lemma {:induction false} MinusAll<T>(s: seq<T>, r: seq<T>)
    requires forall x | x in s :: x in r
    ensures Minus(s, r) == []
  {
    if s != [] {
      MinusAll(s[..|s| - 1], r);
    }
  }

  lemma {:induction false} MinusSplit<T>(s: seq<T>, t: seq<T>, r: seq<T>)
    ensures Minus(s + t, r) == Minus(s, r) + Minus(t, r)
  {
    if t == [] {
      assert s + t == s;
    } else {
      var u, n := s + t, |t| - 1;
      assert u[..|u| - 1] == s + t[..n] && u[|u| - 1] == t[n];
      MinusSplit(s, t[..n], r);
    }
  }

  lemma {:induction false} MinusCongruent<T>(s: seq<T>, r: seq<T>, q: seq<T>)
    requires forall x | x in s :: x in r <==> x in q
    ensures Minus(s, r) == Minus(s, q)
  {
    if s != [] {
      MinusCongruent(s[..|s| - 1], r, q);
    }
  }

  // ------------------------------------------------------------- the order of the names

  /** Where a name occurs first. */
  function At<T(==)>(s: seq<T>, x: T): (k: nat)
    requires x in s
    ensures k < |s| && s[k] == x && forall i | 0 <= i < k :: s[i] != x
  {
    var before := s[..|s| - 1];
    if x in before then At(before, x) else |s| - 1
  }

  /** Names of s, each once, in the order of their first occurrences. */
  ghost predicate InOrderOf<T>(r: seq<T>, s: seq<T>) {
    && (forall i | 0 <= i < |r| :: r[i] in s)
    && (forall i, j | 0 <= i < j < |r| :: At(s, r[i]) < At(s, r[j]))
  }

  lemma NothingInOrder<T>(s: seq<T>)
    ensures InOrderOf([], s)
  {
  }

  lemma OneMore<T>(r: seq<T>, s: seq<T>, x: T)
    requires InOrderOf(r, s)
    ensures InOrderOf(r, s + [x])
    ensures x !in s ==> InOrderOf(r + [x], s + [x])
  {
    var t := s + [x];
    assert t[..|t| - 1] == s;
    forall i | 0 <= i < |r|
      ensures r[i] in t && At(t, r[i]) == At(s, r[i]) && (x !in s ==> At(s, r[i]) < At(t, x))
    {
      assert t[At(s, r[i])] == r[i];
    }
  }

  /** An ordered selection is determined by its members. */
  lemma {:induction false} OneOrder<T(!new)>(r: seq<T>, q: seq<T>, s: seq<T>)
    requires InOrderOf(r, s) && InOrderOf(q, s) && forall x :: x in r <==> x in q
    ensures r == q
  {
    if r == [] {
      HasFirst(q);
    } else {
      assert r[0] in q;
      var a, b := r[|r| - 1], q[|q| - 1];
      assert a in r && b in q;
      LastIsLast(r, s, b);
      LastIsLast(q, s, a);
      assert a == b;
      DropsLast(r, s);
      DropsLast(q, s);
      OneOrder(r[..|r| - 1], q[..|q| - 1], s);
    }
  }

  lemma HasFirst<T(!new)>(s: seq<T>)
    ensures s == [] || exists x :: x in s
  {
    if s != [] {
      assert s[0] in s;
    }
  }

  lemma LastIsLast<T>(r: seq<T>, s: seq<T>, x: T)
    requires InOrderOf(r, s) && x in r
    ensures x in s && At(s, x) <= At(s, r[|r| - 1])
  {
  }

  lemma DropsLast<T(!new)>(r: seq<T>, s: seq<T>)
    requires InOrderOf(r, s) && r != []
    ensures var before := r[..|r| - 1];
      InOrderOf(before, s) && forall x :: x in before <==> x in r && x != r[|r| - 1]
  {
  }

  lemma {:induction false} UniqInOrder<T(!new)>(s: seq<T>)
    ensures InOrderOf(Uniq(s), s)
  {
    if s != [] {
      var before := s[..|s| - 1];
      UniqInOrder(before);
      UniqIs(before);
      OneMore(Uniq(before), before, s[|s| - 1]);
      assert s == before + [s[|s| - 1]];
    }
  }

  lemma {:induction false} MinusInOrder<T>(s: seq<T>, r: seq<T>)
    requires Distinct(s)
    ensures InOrderOf(Minus(s, r), s)
  {
    if s != [] {
      var before := s[..|s| - 1];
      MinusInOrder(before, r);
      OneMore(Minus(before, r), before, s[|s| - 1]);
      assert s == before + [s[|s| - 1]] && Minus(before, r) + [] == Minus(before, r);
    }
  }

  lemma {:induction false} MeetInOrder<T>(s: seq<T>, r: seq<T>)
    requires Distinct(s)
    ensures InOrderOf(Meet(s, r), s)
  {
    if s != [] {
      var before := s[..|s| - 1];
      MeetInOrder(before, r);
      OneMore(Meet(before, r), before, s[|s| - 1]);
      assert s == before + [s[|s| - 1]] && Meet(before, r) + [] == Meet(before, r);
    }
  }
}
