/** The per-user "recently viewed" list that `getTaskById` maintains
    (controllers/taskController.js): the viewed id is removed wherever it
    was, put in front, and the list is cut to its first five entries. */
module RecentlyViewed {
  import opened Common
  import Store

  /** How many ids the list keeps. */
  const MaxRecent: nat := 5

  predicate NoDuplicates(s: seq<Id>)
  {
    forall i, j :: 0 <= i < j < |s| ==> s[i] != s[j]
  }

  /** The test `id => !id.equals(t)`. */
  function Other(t: Id): Id -> bool
  {
    (x: Id) => x != t
  }

  /** `list.filter(id => !id.equals(t))`. */
  function Without(list: seq<Id>, t: Id): (r: seq<Id>)
    ensures t !in r
    ensures forall x :: x in r ==> x in list
    ensures forall x :: x in list && x != t ==> x in r
  {
    Store.Keep(list, Other(t))
  }

  /** Recording a view of task `t`: `t` comes first, the list holds at most
      five ids, and behind `t` come the most recent of the other ids. */
  function RecordView(list: seq<Id>, t: Id): (r: seq<Id>)
    ensures 1 <= |r| <= MaxRecent && r[0] == t
    ensures |r| == if |Without(list, t)| < MaxRecent then 1 + |Without(list, t)| else MaxRecent
    ensures r[1..] == Without(list, t)[..|r| - 1]
  {
    var others := Without(list, t);
    var pushed := [t] + others;
    var r := if |pushed| > MaxRecent then pushed[..MaxRecent] else pushed;
    assert r[1..] == others[..|r| - 1];
    r
  }

  /** The viewed id appears exactly once, and every other id was already in
      the list. */
  lemma RecordViewOnce(list: seq<Id>, t: Id)
    ensures t !in RecordView(list, t)[1..]
    ensures multiset(RecordView(list, t))[t] == 1
    ensures forall x :: x in RecordView(list, t) ==> x == t || x in list
  {
    var r := RecordView(list, t);
    var w := Without(list, t);
    assert forall x :: x in r[1..] ==> x in w;
    assert r == [t] + r[1..];
    assert multiset(r) == multiset([t]) + multiset(r[1..]);
  }

  /** The ids behind `t` keep their previous relative order. */
  lemma RecordViewKeepsOrder(list: seq<Id>, t: Id)
    ensures Store.IsSubsequence(RecordView(list, t)[1..], list)
  {
    var r := RecordView(list, t);
    Store.KeepIsSubsequence(list, Other(t));
    Store.PrefixIsSubsequence(Without(list, t), list, |r| - 1);
  }

  /** A list without duplicates stays without duplicates. */
  lemma RecordViewNoDuplicates(list: seq<Id>, t: Id)
    requires NoDuplicates(list)
    ensures NoDuplicates(RecordView(list, t))
  {
    var w := Without(list, t);
    Store.KeepUnique(list, (x: Id) => x, Other(t));
    assert NoDuplicates(w);
    var r := RecordView(list, t);
    forall i, j | 0 <= i < j < |r| ensures r[i] != r[j] {
      if i > 0 {
        assert r[i] == w[i - 1] && r[j] == w[j - 1];
      } else {
        assert r[j] in r[1..];
      }
    }
  }

  /** Viewing the same task twice in a row is the same as viewing it once. */
  lemma RecordViewIdempotent(list: seq<Id>, t: Id)
    ensures RecordView(RecordView(list, t), t) == RecordView(list, t)
  {
    var r := RecordView(list, t);
    assert Store.Keep(r, Other(t)) == Store.Keep(r[1..], Other(t));
    forall k | 0 <= k < |r[1..]| ensures r[1..][k] != t {
      assert r[1..][k] in r[1..];
    }
    Store.KeepAll(r[1..], Other(t));
    assert [t] + r[1..] == r;
  }

  /** Removing an id that occurs once shortens the list by one. */
  lemma {:induction false} WithoutPresentOnce(list: seq<Id>, t: Id)
    requires NoDuplicates(list) && t in list
    ensures |Without(list, t)| == |list| - 1
    decreases |list|
  {
    if list[0] == t {
      forall k | 0 <= k < |list[1..]| ensures list[1..][k] != t {
        assert list[1..][k] == list[k + 1];
      }
      Store.KeepAll(list[1..], Other(t));
    } else {
      assert t in list[1..];
      assert NoDuplicates(list[1..]) by {
        forall i, j | 0 <= i < j < |list[1..]| ensures list[1..][i] != list[1..][j] {
          assert list[1..][i] == list[i + 1] && list[1..][j] == list[j + 1];
        }
      }
      WithoutPresentOnce(list[1..], t);
    }
  }

  /** Viewing again a task that is already in a (duplicate-free) list moves
      it to the front without growing the list. */
  lemma {:induction false} RevisitDoesNotGrow(list: seq<Id>, t: Id)
    requires NoDuplicates(list) && |list| <= MaxRecent && t in list
    ensures |RecordView(list, t)| == |list|
    ensures multiset(RecordView(list, t)) == multiset(list)
  {
    WithoutPresentOnce(list, t);
    var r := RecordView(list, t);
    var w := Without(list, t);
    assert r == [t] + w;
    RecordViewNoDuplicates(list, t);
    // r and list are duplicate-free with the same members and length
    forall x ensures multiset(r)[x] == multiset(list)[x] {
      DistinctCount(r, x);
      DistinctCount(list, x);
    }
  }

  /** In a list without duplicates an id occurs once if present, else never. */
  lemma {:induction false} DistinctCount(s: seq<Id>, x: Id)
    requires NoDuplicates(s)
    ensures multiset(s)[x] == if x in s then 1 else 0
    decreases |s|
  {
    if |s| > 0 {
      assert s == [s[0]] + s[1..];
      assert NoDuplicates(s[1..]) by {
        forall i, j | 0 <= i < j < |s[1..]| ensures s[1..][i] != s[1..][j] {
          assert s[1..][i] == s[i + 1] && s[1..][j] == s[j + 1];
        }
      }
      DistinctCount(s[1..], x);
      assert s[0] !in s[1..] by {
        forall k | 0 <= k < |s[1..]| ensures s[1..][k] != s[0] {
          assert s[1..][k] == s[k + 1];
        }
      }
    }
  }

  /** Removing an id that is not there changes nothing. */
  lemma WithoutAbsent(list: seq<Id>, t: Id)
    requires t !in list
    ensures Without(list, t) == list
  {
    Store.KeepAll(list, Other(t));
  }

  /** Viewing a task not yet in the list pushes it in front, dropping the
      oldest entry once the list is full. */
  lemma RecordViewNew(list: seq<Id>, t: Id)
    requires t !in list
    ensures RecordView(list, t) == if |list| < MaxRecent then [t] + list else [t] + list[..MaxRecent - 1]
  {
    WithoutAbsent(list, t);
  }

  /** Viewing an id that sits between `a` and `b` moves it to the front and
      closes the gap; the rest keeps its order and only a list that is over
      length is cut. With `a = [T6, T5]`, `t = T4`, `b = [T3, T2]` this is the
      re-view of T4 that turns [T6, T5, T4, T3, T2] into [T4, T6, T5, T3, T2]. */
  lemma RecordViewMovesToFront(a: seq<Id>, t: Id, b: seq<Id>)
    requires t !in a && t !in b
    ensures RecordView(a + [t] + b, t) ==
              if |a| + |b| < MaxRecent then [t] + a + b else ([t] + a + b)[..MaxRecent]
  {
    WithoutAround(a, t, b);
    var r := RecordView(a + [t] + b, t);
    var w := a + b;
    assert r == [t] + r[1..];
    if |w| < MaxRecent {
      assert r[1..] == w;
    } else {
      assert ([t] + w)[..MaxRecent] == [t] + w[..MaxRecent - 1];
    }
    assert [t] + a + b == [t] + w;
  }

  /** Filtering out an id that occurs once, between `a` and `b`, closes the
      gap. */
  lemma WithoutAround(a: seq<Id>, t: Id, b: seq<Id>)
    requires t !in a && t !in b
    ensures Without(a + [t] + b, t) == a + b
  {
    var p := Other(t);
    Store.KeepConcat(a + [t], b, p);
    Store.KeepConcat(a, [t], p);
    WithoutAbsent(a, t);
    WithoutAbsent(b, t);
    assert !p(t);
    assert Store.Keep([t], p) == [];
    assert Store.Keep(a + [t], p) == a;
  }

  /** The list after viewing the tasks `ids` one request at a time, in order. */
  function ViewAll(list: seq<Id>, ids: seq<Id>): (r: seq<Id>)
    ensures |ids| == 0 ==> r == list
    ensures |ids| > 0 ==> 1 <= |r| <= MaxRecent && r[0] == ids[|ids| - 1]
    ensures NoDuplicates(list) ==> NoDuplicates(r)
    decreases |ids|
  {
    if |ids| == 0 then list
    else
      var before := ViewAll(list, ids[..|ids| - 1]);
      if NoDuplicates(before) then
        RecordViewNoDuplicates(before, ids[|ids| - 1]);
        RecordView(before, ids[|ids| - 1])
      else RecordView(before, ids[|ids| - 1])
  }

  function Reverse(s: seq<Id>): (r: seq<Id>)
    ensures |r| == |s|
    ensures forall x :: x in r <==> x in s
  {
    if |s| == 0 then [] else [s[|s| - 1]] + Reverse(s[..|s| - 1])
  }

  /** Dropping the last id of a duplicate-free sequence leaves a
      duplicate-free sequence without that id. */
  lemma DropLast(ids: seq<Id>)
    requires NoDuplicates(ids) && |ids| > 0
    ensures NoDuplicates(ids[..|ids| - 1])
    ensures ids[|ids| - 1] !in ids[..|ids| - 1]
  {
    var p := ids[..|ids| - 1];
    forall i, j | 0 <= i < j < |p| ensures p[i] != p[j] {
      assert p[i] == ids[i] && p[j] == ids[j];
    }
    forall k | 0 <= k < |p| ensures p[k] != ids[|ids| - 1] {
      assert p[k] == ids[k];
    }
  }

  /** One more distinct view on top of the newest entries of `older`. */
  lemma ViewOnTopOfNewest(older: seq<Id>, x: Id)
    requires x !in older
    ensures var v := older[..if |older| < MaxRecent then |older| else MaxRecent];
            var all := [x] + older;
            RecordView(v, x) == all[..if |all| < MaxRecent then |all| else MaxRecent]
  {
    var v := older[..if |older| < MaxRecent then |older| else MaxRecent];
    assert x !in v by {
      assert forall y :: y in v ==> y in older;
    }
    RecordViewNew(v, x);
    if |older| >= MaxRecent {
      assert v[..MaxRecent - 1] == older[..MaxRecent - 1];
      assert ([x] + older)[..MaxRecent] == [x] + older[..MaxRecent - 1];
    } else {
      assert v == older;
    }
  }

  /** Viewing distinct tasks from an empty list leaves the five most recently
      viewed, newest first. With T1..T6 this is [T6, T5, T4, T3, T2]: T1 is
      evicted. */
  lemma {:induction false} ViewAllKeepsNewestFive(ids: seq<Id>)
    requires NoDuplicates(ids)
    ensures ViewAll([], ids) == Reverse(ids)[..if |ids| < MaxRecent then |ids| else MaxRecent]
    decreases |ids|
  {
    if |ids| > 0 {
      var p := ids[..|ids| - 1];
      var x := ids[|ids| - 1];
      DropLast(ids);
      ViewAllKeepsNewestFive(p);
      assert x !in Reverse(p);
      ViewOnTopOfNewest(Reverse(p), x);
      assert Reverse(ids) == [x] + Reverse(p);
    }
  }
}
