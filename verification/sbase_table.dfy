/** The id bookkeeping of SBaseTable: a table keeps its SBML elements in
    `memberList` and mirrors them in the libSBML `ListOf` named `list`.
    libSBML elements are modelled as handles (the Java reference) with an
    id; both lists shift later elements down when one is removed. */
module SBaseTable {
  import opened Wrappers

  /** A libSBML element: `ref` stands for its Java reference, so two
      elements are the same object exactly when their refs are equal. */
  datatype SBase = SBase(ref: nat, id: string)

  /** The two lists a table keeps. */
  datatype Table = Table(memberList: seq<SBase>, list: seq<SBase>)

  /** `memberList.get(index)` with an index outside the list. */
  datatype TableError = IndexOutOfBounds(index: int)

  /** `remove(i)` on an ArrayList or a ListOf: drop element `i`, shift the
      rest down. */
  function RemoveAt<T>(s: seq<T>, i: nat): (r: seq<T>)
    requires i < |s|
    ensures |r| == |s| - 1
    ensures forall j :: 0 <= j < i ==> r[j] == s[j]
    ensures forall j :: i <= j < |r| ==> r[j] == s[j + 1]
  {
    s[..i] + s[i + 1..]
  }

  /** The entries of `s` whose id is not `id`, in order. */
  function Others(s: seq<SBase>, id: string): (r: seq<SBase>)
    ensures |r| <= |s|
  {
    if |s| == 0 then []
    else if s[0].id == id then Others(s[1..], id)
    else [s[0]] + Others(s[1..], id)
  }

  /** How many entries of `s` have id `id`. */
  function CountId(s: seq<SBase>, id: string): nat
  {
    if |s| == 0 then 0
    else (if s[0].id == id then 1 else 0) + CountId(s[1..], id)
  }

  /** Some two neighbouring entries of `s` both have id `id`. */
  predicate HasAdjacentPair(s: seq<SBase>, id: string)
  {
    exists i :: 0 <= i < |s| - 1 && s[i].id == id && s[i + 1].id == id
  }

  // ---------------------------------------------------------------------
  // removeFromList
  // ---------------------------------------------------------------------

  /** What is left of `list` after a left-to-right index scan that removes
      each entry with the id and then advances the index anyway. The entry
      that shifts into the removed one's place is therefore stepped over:
      it is kept without being examined. */
  function RemoveMatchingIds(list: seq<SBase>, id: string): (r: seq<SBase>)
    ensures |r| <= |list|
    ensures forall e :: e in r ==> e in list
    decreases |list|
  {
    if |list| == 0 then []
    else if list[0].id != id then [list[0]] + RemoveMatchingIds(list[1..], id)
    else if |list| == 1 then []
    else [list[1]] + RemoveMatchingIds(list[2..], id)
  }

  /** The loop itself, on a list that shrinks under its index as the
      source's does. */
  method RemoveMatchingIdsLoop(list0: seq<SBase>, id: string) returns (list: seq<SBase>)
    ensures list == RemoveMatchingIds(list0, id)
  {
    list := list0;
    var i := 0;
    while i < |list|
      invariant 0 <= i <= |list| + 1
      invariant i <= |list| ==> RemoveMatchingIds(list0, id) == list[..i] + RemoveMatchingIds(list[i..], id)
      invariant i == |list| + 1 ==> RemoveMatchingIds(list0, id) == list
      decreases |list| - i + 1
    {
      LoopStep(list, i, id);
      if list[i].id == id {
        list := RemoveAt(list, i);
      }
      i := i + 1;
    }
    if i == |list| {
      assert list[i..] == [];
    }
  }

  /** One turn of the loop at index `i` keeps what remains to be computed. */
  lemma LoopStep(list: seq<SBase>, i: nat, id: string)
    requires i < |list|
    ensures list[i].id != id ==>
      list[..i] + RemoveMatchingIds(list[i..], id) == list[..i + 1] + RemoveMatchingIds(list[i + 1..], id)
    ensures list[i].id == id && i + 1 < |list| ==>
      var next := RemoveAt(list, i);
      list[..i] + RemoveMatchingIds(list[i..], id) == next[..i + 1] + RemoveMatchingIds(next[i + 1..], id)
    ensures list[i].id == id && i + 1 == |list| ==>
      list[..i] + RemoveMatchingIds(list[i..], id) == RemoveAt(list, i)
  {
    var tail := list[i..];
    if list[i].id != id {
      assert tail[1..] == list[i + 1..];
      assert list[..i + 1] == list[..i] + [list[i]];
    } else if i + 1 < |list| {
      var next := RemoveAt(list, i);
      assert tail[2..] == list[i + 2..];
      assert next[..i + 1] == list[..i] + [list[i + 1]];
      assert next[i + 1..] == list[i + 2..];
    }
  }

  /** `removeFromList(index)`: -1 (no row selected) changes nothing; a
      valid index removes that member and, from `list`, the entries with
      its id that the loop examines; any other index throws before anything
      changes. */
  function RemoveFromList(t: Table, index: int): (r: Result<Table, TableError>)
    ensures index == -1 ==> r == Success(t)
    ensures r.Failure? <==> index != -1 && !(0 <= index < |t.memberList|)
    ensures r.Success? && index != -1 ==>
      && r.value.memberList == t.memberList[..index] + t.memberList[index + 1..]
      && Others(r.value.list, t.memberList[index].id) == Others(t.list, t.memberList[index].id)
  {
    if index == -1 then Success(t)
    else if !(0 <= index < |t.memberList|) then Failure(IndexOutOfBounds(index))
    else
      var id := t.memberList[index].id;
      RemoveMatchingIdsKeepsOthers(t.list, id);
      Success(Table(RemoveAt(t.memberList, index), RemoveMatchingIds(t.list, id)))
  }

  /** The loop removes only entries with the id: every other entry stays,
      in order. */
  lemma {:induction false} RemoveMatchingIdsKeepsOthers(list: seq<SBase>, id: string)
    ensures Others(RemoveMatchingIds(list, id), id) == Others(list, id)
    decreases |list|
  {
    if |list| == 0 {
    } else if list[0].id != id {
      RemoveMatchingIdsKeepsOthers(list[1..], id);
      assert ([list[0]] + RemoveMatchingIds(list[1..], id))[1..] == RemoveMatchingIds(list[1..], id);
    } else if |list| == 1 {
    } else {
      RemoveMatchingIdsKeepsOthers(list[2..], id);
      var r := [list[1]] + RemoveMatchingIds(list[2..], id);
      assert r[1..] == RemoveMatchingIds(list[2..], id);
      assert list[1..][1..] == list[2..];
    }
  }

  /** When no two neighbouring entries share the id, the loop removes every
      entry with it. */
  lemma {:induction false} RemoveMatchingIdsWithoutAdjacentPair(list: seq<SBase>, id: string)
    requires !HasAdjacentPair(list, id)
    ensures RemoveMatchingIds(list, id) == Others(list, id)
    decreases |list|
  {
    if |list| == 0 {
    } else if list[0].id != id {
      assert !HasAdjacentPair(list[1..], id) by {
        forall i | 0 <= i < |list[1..]| - 1 && list[1..][i].id == id
          ensures list[1..][i + 1].id != id
        {
          assert list[i + 1].id == id;
        }
      }
      RemoveMatchingIdsWithoutAdjacentPair(list[1..], id);
    } else if |list| == 1 {
    } else {
      assert list[1].id != id;
      assert !HasAdjacentPair(list[2..], id) by {
        forall i | 0 <= i < |list[2..]| - 1 && list[2..][i].id == id
          ensures list[2..][i + 1].id != id
        {
          assert list[i + 2].id == id;
        }
      }
      RemoveMatchingIdsWithoutAdjacentPair(list[2..], id);
      assert list[1..][1..] == list[2..];
    }
  }

  /** The common case: exactly one entry of `list` has the removed
      member's id, and that entry alone is removed. */
  lemma RemoveFromListSingleMatch(t: Table, index: int, p: nat)
    requires 0 <= index < |t.memberList|
    requires p < |t.list| && t.list[p].id == t.memberList[index].id
    requires forall j :: 0 <= j < |t.list| && j != p ==> t.list[j].id != t.memberList[index].id
    ensures RemoveFromList(t, index).Success?
    ensures RemoveFromList(t, index).value.list == t.list[..p] + t.list[p + 1..]
  {
    var id := t.memberList[index].id;
    assert !HasAdjacentPair(t.list, id);
    RemoveMatchingIdsWithoutAdjacentPair(t.list, id);
    OthersSingle(t.list, id, p);
  }

  /** Dropping the one entry with the id is the same as keeping the others. */
  lemma {:induction false} OthersSingle(s: seq<SBase>, id: string, p: nat)
    requires p < |s| && s[p].id == id
    requires forall j :: 0 <= j < |s| && j != p ==> s[j].id != id
    ensures Others(s, id) == s[..p] + s[p + 1..]
    decreases |s|
  {
    var tail := s[1..];
    if p == 0 {
      OthersNone(tail, id);
      assert s[p + 1..] == tail;
    } else {
      OthersSingle(tail, id, p - 1);
      calc {
        Others(s, id);
        [s[0]] + Others(tail, id);
        [s[0]] + (tail[..p - 1] + tail[p..]);
        { assert s[..p] == [s[0]] + tail[..p - 1]; assert s[p + 1..] == tail[p..]; }
        s[..p] + s[p + 1..];
      }
    }
  }

  /** A list without the id is its own `Others`. */
  lemma {:induction false} OthersNone(s: seq<SBase>, id: string)
    requires forall j :: 0 <= j < |s| ==> s[j].id != id
    ensures Others(s, id) == s
    decreases |s|
  {
    if |s| > 0 {
      OthersNone(s[1..], id);
      assert s == [s[0]] + s[1..];
    }
  }

  /** Two neighbouring entries with the id, after entries without it: the
      first is removed, the second is stepped over and survives, and the
      scan goes on after it. */
  lemma {:induction false} RemoveMatchingIdsSkipsNeighbour(pre: seq<SBase>, a: SBase, b: SBase, post: seq<SBase>, id: string)
    requires forall j :: 0 <= j < |pre| ==> pre[j].id != id
    requires a.id == id && b.id == id
    ensures RemoveMatchingIds(pre + [a, b] + post, id) == pre + [b] + RemoveMatchingIds(post, id)
    decreases |pre|
  {
    if |pre| == 0 {
      assert pre + [a, b] + post == [a, b] + post;
      RemoveMatchingIdsPairAtFront(a, b, post, id);
    } else {
      var rest := pre[1..];
      RemoveMatchingIdsSkipsNeighbour(rest, a, b, post, id);
      assert pre + [a, b] + post == [pre[0]] + (rest + [a, b] + post);
      RemoveMatchingIdsPassOver(pre[0], rest + [a, b] + post, id);
      assert pre + [b] + RemoveMatchingIds(post, id) == [pre[0]] + (rest + [b] + RemoveMatchingIds(post, id));
    }
  }

  /** An entry with another id is kept and the scan moves on. */
  lemma RemoveMatchingIdsPassOver(x: SBase, rest: seq<SBase>, id: string)
    requires x.id != id
    ensures RemoveMatchingIds([x] + rest, id) == [x] + RemoveMatchingIds(rest, id)
  {
    assert ([x] + rest)[1..] == rest;
  }

  /** An entry with the id is removed and the one after it stepped over. */
  lemma RemoveMatchingIdsPairAtFront(a: SBase, b: SBase, post: seq<SBase>, id: string)
    requires a.id == id
    ensures RemoveMatchingIds([a, b] + post, id) == [b] + RemoveMatchingIds(post, id)
  {
    assert ([a, b] + post)[2..] == post;
  }

  /** Entries with the id in a concatenation are those of both parts. */
  lemma {:induction false} CountIdAppend(a: seq<SBase>, b: seq<SBase>, id: string)
    ensures CountId(a + b, id) == CountId(a, id) + CountId(b, id)
    decreases |a|
  {
    if |a| > 0 {
      assert (a + b)[1..] == a[1..] + b;
      CountIdAppend(a[1..], b, id);
    } else {
      assert a + b == b;
    }
  }

  /** The scan removes at least half of the entries with the id: each entry
      it steps over follows one it removed. */
  lemma {:induction false} RemoveMatchingIdsRemovesHalf(list: seq<SBase>, id: string)
    ensures 2 * CountId(RemoveMatchingIds(list, id), id) <= CountId(list, id)
    decreases |list|
  {
    if |list| == 0 {
    } else if list[0].id != id {
      RemoveMatchingIdsRemovesHalf(list[1..], id);
      CountIdAppend([list[0]], RemoveMatchingIds(list[1..], id), id);
    } else if |list| == 1 {
    } else {
      RemoveMatchingIdsRemovesHalf(list[2..], id);
      CountIdAppend([list[1]], RemoveMatchingIds(list[2..], id), id);
      assert list[1..][1..] == list[2..];
    }
  }

  /** The evidently intended removal: every entry with the id goes. */
  function RemoveAllWithId(list: seq<SBase>, id: string): (r: seq<SBase>)
    ensures CountId(r, id) == 0
    ensures Others(r, id) == Others(list, id)
  {
    OthersCountZero(list, id);
    OthersIdempotent(list, id);
    Others(list, id)
  }

  /** `Others` leaves no entry with the id. */
  lemma {:induction false} OthersCountZero(s: seq<SBase>, id: string)
    ensures CountId(Others(s, id), id) == 0
    decreases |s|
  {
    if |s| > 0 {
      OthersCountZero(s[1..], id);
      if s[0].id != id {
        assert ([s[0]] + Others(s[1..], id))[1..] == Others(s[1..], id);
      }
    }
  }

  /** Filtering twice is filtering once. */
  lemma {:induction false} OthersIdempotent(s: seq<SBase>, id: string)
    ensures Others(Others(s, id), id) == Others(s, id)
    decreases |s|
  {
    if |s| > 0 {
      OthersIdempotent(s[1..], id);
      if s[0].id != id {
        assert ([s[0]] + Others(s[1..], id))[1..] == Others(s[1..], id);
      }
    }
  }

  // ---------------------------------------------------------------------
  // containsDuplicateId
  // ---------------------------------------------------------------------

  /** Some member other than `sbase` itself (by reference) has its id. */
  predicate HasOtherWithSameId(memberList: seq<SBase>, sbase: SBase)
  {
    exists j :: 0 <= j < |memberList| && memberList[j].ref != sbase.ref && memberList[j].id == sbase.id
  }

  /** `containsDuplicateId`: scans every member, setting the flag at each
      other member with the same id. */
  method ContainsDuplicateId(memberList: seq<SBase>, sbase: SBase) returns (found: bool)
    ensures found <==> HasOtherWithSameId(memberList, sbase)
  {
    found := false;
    var j := 0;
    while j < |memberList|
      invariant 0 <= j <= |memberList|
      invariant found <==> HasOtherWithSameId(memberList[..j], sbase)
    {
      var s := memberList[j];
      if s.ref != sbase.ref && s.id == sbase.id {
        found := true;
      }
      assert memberList[..j + 1] == memberList[..j] + [s];
      j := j + 1;
    }
    assert memberList[..j] == memberList;
  }

  /** No two different objects among the members share an id. */
  predicate IdsUnique(memberList: seq<SBase>)
  {
    forall i, j :: 0 <= i < |memberList| && 0 <= j < |memberList| && memberList[i].ref != memberList[j].ref
      ==> memberList[i].id != memberList[j].id
  }

  /** The ids are unique exactly when no member would be reported as a
      duplicate. */
  lemma IdsUniqueIffNoDuplicate(memberList: seq<SBase>)
    ensures IdsUnique(memberList) <==> forall j :: 0 <= j < |memberList| ==> !HasOtherWithSameId(memberList, memberList[j])
  {
  }

  /** Removing a member keeps the member ids unique. */
  lemma RemoveFromListKeepsIdsUnique(t: Table, index: int)
    requires IdsUnique(t.memberList)
    requires RemoveFromList(t, index).Success?
    ensures IdsUnique(RemoveFromList(t, index).value.memberList)
  {
  }

  /** With unique ids in `list` the loop's skip never matters: every entry
      with the removed member's id goes. */
  lemma RemoveFromListUniqueIds(t: Table, index: int)
    requires 0 <= index < |t.memberList|
    requires forall i, j :: 0 <= i < j < |t.list| ==> t.list[i].id != t.list[j].id
    ensures RemoveFromList(t, index).value.list == Others(t.list, t.memberList[index].id)
  {
    var id := t.memberList[index].id;
    assert !HasAdjacentPair(t.list, id);
    RemoveMatchingIdsWithoutAdjacentPair(t.list, id);
  }
}
