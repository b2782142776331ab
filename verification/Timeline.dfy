/** Time-ordered entries: insertion after ties, half-open windows and trimming. */
module Timeline {

  datatype Stamped<T> = Stamped(time: real, value: T)

  ghost predicate Sorted<T>(s: seq<Stamped<T>>) {
    forall i, j :: 0 <= i < j < |s| ==> s[i].time <= s[j].time
  }

  /** Places x after every entry that is not later. */
  function Insert<T>(s: seq<Stamped<T>>, x: Stamped<T>): (r: seq<Stamped<T>>)
    ensures |r| == |s| + 1
  {
    if s == [] || s[|s| - 1].time <= x.time then s + [x]
    else Insert(s[..|s| - 1], x) + [s[|s| - 1]]
  }

  /** The entries with low <= time < high. */
  function Within<T>(s: seq<Stamped<T>>, low: real, high: real): seq<Stamped<T>> {
    if s == [] then []
    else
      var last := s[|s| - 1];
      if low <= last.time < high then Within(s[..|s| - 1], low, high) + [last] else Within(s[..|s| - 1], low, high)
  }

  /** The entries no earlier than low. */
  function From<T>(s: seq<Stamped<T>>, low: real): seq<Stamped<T>> {
    if s == [] then []
    else
      var last := s[|s| - 1];
      if low <= last.time then From(s[..|s| - 1], low) + [last] else From(s[..|s| - 1], low)
  }

  function Values<T>(s: seq<Stamped<T>>): (r: seq<T>)
    ensures |r| == |s|
  {
    seq(|s|, i requires 0 <= i < |s| => s[i].value)
  }

  lemma ValuesConcat<T(!new)>(a: seq<Stamped<T>>, b: seq<Stamped<T>>)
    ensures Values(a + b) == Values(a) + Values(b)
  {}

  lemma {:induction false} WithinMembers<T(!new)>(s: seq<Stamped<T>>, low: real, high: real)
    ensures forall x :: x in Within(s, low, high) <==> x in s && low <= x.time < high
    ensures Sorted(s) ==> Sorted(Within(s, low, high))
  {
    if s != [] {
      var front, last := s[..|s| - 1], s[|s| - 1];
      assert s == front + [last];
      WithinMembers(front, low, high);
      var w := Within(front, low, high);
      if Sorted(s) {
        forall k | 0 <= k < |w| ensures w[k].time <= last.time {
          assert w[k] in w && w[k] in front;
        }
      }
    }
  }

  lemma {:induction false} FromMembers<T(!new)>(s: seq<Stamped<T>>, low: real)
    ensures forall x :: x in From(s, low) <==> x in s && low <= x.time
    ensures Sorted(s) ==> Sorted(From(s, low))
  {
    if s != [] {
      var front, last := s[..|s| - 1], s[|s| - 1];
      assert s == front + [last];
      FromMembers(front, low);
      var w := From(front, low);
      if Sorted(s) {
        forall k | 0 <= k < |w| ensures w[k].time <= last.time {
          assert w[k] in w && w[k] in front;
        }
      }
    }
  }

  lemma {:induction false} FromAll<T(!new)>(s: seq<Stamped<T>>, low: real)
    requires forall x :: x in s ==> low <= x.time
    ensures From(s, low) == s
  {
    if s != [] {
      assert s == s[..|s| - 1] + [s[|s| - 1]];
      FromAll(s[..|s| - 1], low);
    }
  }

  lemma {:induction false} InsertMembers<T(!new)>(s: seq<Stamped<T>>, x: Stamped<T>)
    ensures forall y :: y in Insert(s, x) <==> y in s || y == x
    ensures Sorted(s) ==> Sorted(Insert(s, x))
  {
    if s != [] && s[|s| - 1].time > x.time {
      var front, last := s[..|s| - 1], s[|s| - 1];
      assert s == front + [last];
      InsertMembers(front, x);
      var w := Insert(front, x);
      if Sorted(s) {
        forall k | 0 <= k < |w| ensures w[k].time <= last.time {
          assert w[k] in w;
        }
      }
    } else if s != [] && Sorted(s) {
      forall k | 0 <= k < |s| ensures s[k].time <= x.time {
        assert k < |s| - 1 ==> s[k].time <= s[|s| - 1].time;
      }
    }
  }

  lemma WithinSnoc<T(!new)>(s: seq<Stamped<T>>, x: Stamped<T>, low: real, high: real)
    ensures Within(s + [x], low, high) == if low <= x.time < high then Within(s, low, high) + [x]
      else Within(s, low, high)
  {
    assert (s + [x])[..|s|] == s;
  }

  lemma FromSnoc<T(!new)>(s: seq<Stamped<T>>, x: Stamped<T>, low: real)
    ensures From(s + [x], low) == if low <= x.time then From(s, low) + [x] else From(s, low)
  {
    assert (s + [x])[..|s|] == s;
  }

  lemma InsertSnoc<T(!new)>(s: seq<Stamped<T>>, last: Stamped<T>, x: Stamped<T>)
    ensures Insert(s + [last], x) == if last.time <= x.time then s + [last] + [x] else Insert(s, x) + [last]
  {
    assert (s + [last])[..|s|] == s;
  }

  /** Appending is inserting when nothing is later. */
  lemma InsertAtEnd<T(!new)>(s: seq<Stamped<T>>, x: Stamped<T>)
    requires forall y :: y in s ==> y.time <= x.time
    ensures Insert(s, x) == s + [x]
  {
    if s != [] { assert s[|s| - 1] in s; }
  }

  lemma {:induction false} WithinEmpty<T(!new)>(s: seq<Stamped<T>>, low: real, high: real)
    requires forall x :: x in s ==> x.time < low || high <= x.time
    ensures Within(s, low, high) == []
  {
    WithinMembers(s, low, high);
    assert Within(s, low, high) != [] ==> Within(s, low, high)[0] in Within(s, low, high);
  }

  lemma LastIsGreatest<T(!new)>(front: seq<Stamped<T>>, last: Stamped<T>)
    requires Sorted(front + [last])
    ensures Sorted(front) && forall y :: y in front ==> y.time <= last.time
  {
    var s := front + [last];
    forall i, j | 0 <= i < j < |front| ensures front[i].time <= front[j].time {
      assert s[i].time <= s[j].time;
    }
    forall y | y in front ensures y.time <= last.time {
      var k :| 0 <= k < |front| && front[k] == y;
      assert s[k].time <= s[|front|].time;
    }
  }

  /** Adjacent windows of a sorted sequence join to the whole. */
  lemma {:induction false} WithinSplit<T(!new)>(s: seq<Stamped<T>>, low: real, mid: real, high: real)
    requires Sorted(s) && low <= mid <= high
    ensures Within(s, low, high) == Within(s, low, mid) + Within(s, mid, high)
  {
    if s != [] {
      var front, last := s[..|s| - 1], s[|s| - 1];
      assert s == front + [last];
      LastIsGreatest(front, last);
      WithinSplit(front, low, mid, high);
      if low <= last.time < mid { WithinEmpty(front, mid, high); }
    }
  }

  lemma {:induction false} WithinInsert<T(!new)>(s: seq<Stamped<T>>, x: Stamped<T>, low: real, high: real)
    requires Sorted(s)
    ensures Within(Insert(s, x), low, high) ==
            if low <= x.time < high then Insert(Within(s, low, high), x) else Within(s, low, high)
  {
    if s == [] {
      WithinSnoc(s, x, low, high);
    } else {
      var front, last := s[..|s| - 1], s[|s| - 1];
      assert s == front + [last];
      LastIsGreatest(front, last);
      if last.time <= x.time {
        WithinSnoc(s, x, low, high);
        WithinMembers(s, low, high);
        InsertAtEnd(Within(s, low, high), x);
      } else {
        assert Insert(s, x) == Insert(front, x) + [last];
        WithinInsert(front, x, low, high);
        WithinSnoc(Insert(front, x), last, low, high);
        InsertSnoc(Within(front, low, high), last, x);
      }
    }
  }

  lemma {:induction false} FromInsert<T(!new)>(s: seq<Stamped<T>>, x: Stamped<T>, low: real)
    requires Sorted(s) && low <= x.time
    ensures From(Insert(s, x), low) == Insert(From(s, low), x)
  {
    if s == [] {
      FromSnoc(s, x, low);
    } else {
      var front, last := s[..|s| - 1], s[|s| - 1];
      assert s == front + [last];
      LastIsGreatest(front, last);
      if last.time <= x.time {
        FromSnoc(s, x, low);
        FromMembers(s, low);
        InsertAtEnd(From(s, low), x);
      } else {
        FromInsert(front, x, low);
        FromSnoc(Insert(front, x), last, low);
        InsertSnoc(From(front, low), last, x);
      }
    }
  }

  lemma {:induction false} WithinFrom<T(!new)>(s: seq<Stamped<T>>, cutoff: real, low: real, high: real)
    ensures Within(From(s, cutoff), low, high) == Within(s, if low < cutoff then cutoff else low, high)
  {
    if s != [] {
      var front, last := s[..|s| - 1], s[|s| - 1];
      WithinFrom(front, cutoff, low, high);
      WithinSnoc(From(front, cutoff), last, low, high);
    }
  }

  lemma {:induction false} FromFrom<T(!new)>(s: seq<Stamped<T>>, a: real, b: real)
    requires a <= b
    ensures From(From(s, a), b) == From(s, b)
  {
    if s != [] {
      var front, last := s[..|s| - 1], s[|s| - 1];
      FromFrom(front, a, b);
      FromSnoc(From(front, a), last, b);
    }
  }

  lemma {:induction false} WithinWithin<T(!new)>(s: seq<Stamped<T>>, a: real, b: real, low: real, high: real)
    ensures Within(Within(s, a, b), low, high) == Within(s, if low < a then a else low, if high < b then high else b)
  {
    if s != [] {
      var front, last := s[..|s| - 1], s[|s| - 1];
      WithinWithin(front, a, b, low, high);
      WithinSnoc(Within(front, a, b), last, low, high);
    }
  }

  // ----- how often an entry is kept -----

  lemma {:induction false} InsertCount<T(!new)>(s: seq<Stamped<T>>, x: Stamped<T>)
    ensures multiset(Insert(s, x)) == multiset(s) + multiset{x}
  {
    if s != [] && s[|s| - 1].time > x.time {
      InsertCount(s[..|s| - 1], x);
      assert s == s[..|s| - 1] + [s[|s| - 1]];
    }
  }

  lemma {:induction false} FromCount<T(!new)>(s: seq<Stamped<T>>, low: real, x: Stamped<T>)
    ensures multiset(From(s, low))[x] == if low <= x.time then multiset(s)[x] else 0
  {
    if s != [] {
      FromCount(s[..|s| - 1], low, x);
      assert s == s[..|s| - 1] + [s[|s| - 1]];
    }
  }

  lemma {:induction false} WithinCount<T(!new)>(s: seq<Stamped<T>>, low: real, high: real, x: Stamped<T>)
    ensures multiset(Within(s, low, high))[x] == if low <= x.time < high then multiset(s)[x] else 0
  {
    if s != [] {
      WithinCount(s[..|s| - 1], low, high, x);
      assert s == s[..|s| - 1] + [s[|s| - 1]];
    }
  }
}
