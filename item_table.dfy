/** The list of items seen as a table keyed by id: the searches the in-memory
    store performs (LINQ `Where(...).SingleOrDefault()`, `List.FindIndex`)
    and the in-place edits it makes (indexer store, `RemoveAt`), as functions
    on the list's contents. */
module ItemTable {
  import opened Entities

  /** Some stored item has id `id`. */
  predicate HasId(s: seq<Item>, id: Guid) {
    exists i :: 0 <= i < |s| && s[i].id == id
  }

  /** The store invariant: no two stored items share an id. */
  predicate UniqueIds(s: seq<Item>) {
    forall i, j :: 0 <= i < j < |s| ==> s[i].id != s[j].id
  }

  /** Two different positions hold items with id `id`. */
  predicate DuplicateId(s: seq<Item>, id: Guid) {
    exists i, j :: 0 <= i < j < |s| && s[i].id == id && s[j].id == id
  }

  /** `Where(item => item.Id == id)`: the matching items, in list order. */
  function Matches(s: seq<Item>, id: Guid): (m: seq<Item>)
    ensures |m| <= |s|
    ensures forall i :: 0 <= i < |m| ==> m[i].id == id
    ensures m == [] <==> !HasId(s, id)
  {
    if s == [] then []
    else (if s[0].id == id then [s[0]] else []) + Matches(s[1..], id)
  }

  /** The matches are exactly the stored items with that id. */
  lemma {:induction false} MatchesMember(s: seq<Item>, id: Guid, x: Item)
    ensures x in Matches(s, id) <==> x in s && x.id == id
  {
    if s != [] {
      MatchesMember(s[1..], id, x);
      assert x in s <==> x == s[0] || x in s[1..];
    }
  }

  /** `SingleOrDefault()` over the matches: no match gives the default (null),
      one match gives that item, a second match throws. */
  function SingleOrDefault(s: seq<Item>, id: Guid): (r: Result<Option<Item>>)
    ensures r == Success(None) <==> !HasId(s, id)
    ensures r.Success? && r.value.Some? ==> r.value.value in s && r.value.value.id == id
    ensures r.Failure? ==> r.error == MoreThanOneMatch
  {
    var m := Matches(s, id);
    if |m| == 0 then Success(None)
    else if |m| == 1 then MatchesMember(s, id, m[0]); Success(Some(m[0]))
    else Failure(MoreThanOneMatch)
  }

  /** `FindIndex(item => item.Id == id)`: the first position holding `id`,
      or -1 when there is none. */
  function IndexOf(s: seq<Item>, id: Guid): (k: int)
    ensures -1 <= k < |s|
    ensures k == -1 <==> !HasId(s, id)
    ensures 0 <= k ==> s[k].id == id && forall i :: 0 <= i < k ==> s[i].id != id
  {
    if s == [] then -1
    else if s[0].id == id then 0
    else
      var k := IndexOf(s[1..], id);
      if k == -1 then -1 else k + 1
  }

  /** `_items[FindIndex(...)] = item`: overwrite the first item with the same
      id; indexing with -1 throws. */
  function Replace(s: seq<Item>, item: Item): (r: Result<seq<Item>>)
    ensures r.Failure? <==> !HasId(s, item.id)
    ensures r.Failure? ==> r.error == ArgumentOutOfRange
    ensures r.Success? ==>
      var k := IndexOf(s, item.id);
      |r.value| == |s| && r.value[k] == item &&
      forall i :: 0 <= i < |s| && i != k ==> r.value[i] == s[i]
  {
    var k := IndexOf(s, item.id);
    if k < 0 then Failure(ArgumentOutOfRange) else Success(s[k := item])
  }

  /** `RemoveAt(FindIndex(...))`: drop the first item with id `id`, the
      others keeping their order; removing at -1 throws. */
  function Remove(s: seq<Item>, id: Guid): (r: Result<seq<Item>>)
    ensures r.Failure? <==> !HasId(s, id)
    ensures r.Failure? ==> r.error == ArgumentOutOfRange
    ensures r.Success? ==>
      var k := IndexOf(s, id);
      |r.value| == |s| - 1 &&
      (forall i :: 0 <= i < k ==> r.value[i] == s[i]) &&
      (forall i :: k <= i < |r.value| ==> r.value[i] == s[i + 1])
  {
    var k := IndexOf(s, id);
    if k < 0 then Failure(ArgumentOutOfRange) else Success(s[..k] + s[k + 1..])
  }

  // ---------------------------------------------------------------------
  // Facts about Matches

  lemma {:induction false} MatchesAppend(a: seq<Item>, b: seq<Item>, id: Guid)
    ensures Matches(a + b, id) == Matches(a, id) + Matches(b, id)
  {
    if a == [] {
      assert a + b == b;
    } else {
      assert (a + b)[1..] == a[1..] + b;
      MatchesAppend(a[1..], b, id);
    }
  }

  lemma MatchesSingleton(x: Item, id: Guid)
    ensures Matches([x], id) == if x.id == id then [x] else []
  {
    assert [x][1..] == [];
  }

  /** Extending a prefix by one item adds that item's match, if any. */
  lemma MatchesPrefixStep(s: seq<Item>, n: nat, id: Guid)
    requires n < |s|
    ensures Matches(s[..n + 1], id) ==
      Matches(s[..n], id) + if s[n].id == id then [s[n]] else []
  {
    assert s[..n + 1] == s[..n] + [s[n]];
    MatchesAppend(s[..n], [s[n]], id);
    MatchesSingleton(s[n], id);
  }

  /** A prefix has no more matches than the whole list. */
  lemma MatchesPrefix(s: seq<Item>, n: nat, id: Guid)
    requires n <= |s|
    ensures |Matches(s[..n], id)| <= |Matches(s, id)|
  {
    assert s == s[..n] + s[n..];
    MatchesAppend(s[..n], s[n..], id);
  }

  /** At most one item matches in a table with unique ids. */
  lemma {:induction false} MatchesUnique(s: seq<Item>, id: Guid)
    requires UniqueIds(s)
    ensures |Matches(s, id)| <= 1
  {
    if s != [] {
      var t := s[1..];
      assert UniqueIds(t) by {
        forall i, j | 0 <= i < j < |t| ensures t[i].id != t[j].id {
          assert t[i] == s[i + 1] && t[j] == s[j + 1];
        }
      }
      MatchesUnique(t, id);
      if s[0].id == id {
        assert !HasId(t, id) by {
          forall j | 0 <= j < |t| ensures t[j].id != id {
            assert t[j] == s[j + 1];
          }
        }
      }
    }
  }

  /** Two matches mean two positions holding the id. */
  lemma {:induction false} TwoMatchesDuplicate(s: seq<Item>, id: Guid)
    requires |Matches(s, id)| >= 2
    ensures DuplicateId(s, id)
  {
    var t := s[1..];
    if s[0].id == id {
      var x := Matches(t, id)[0];
      MatchesMember(t, id, x);
      var j :| 0 <= j < |t| && t[j] == x;
      assert s[j + 1] == x;
      assert 0 < j + 1 < |s| && s[0].id == id && s[j + 1].id == id;
    } else {
      TwoMatchesDuplicate(t, id);
      var i, j :| 0 <= i < j < |t| && t[i].id == id && t[j].id == id;
      assert s[i + 1] == t[i] && s[j + 1] == t[j];
    }
  }

  /** Two positions holding the id mean two matches. */
  lemma DuplicateTwoMatches(s: seq<Item>, id: Guid)
    requires DuplicateId(s, id)
    ensures |Matches(s, id)| >= 2
  {
    var i, j :| 0 <= i < j < |s| && s[i].id == id && s[j].id == id;
    var a, b := s[..j], s[j..];
    assert s == a + b;
    MatchesAppend(a, b, id);
    assert a[i] == s[i] && b[0] == s[j];
    assert Matches(a, id) != [] && Matches(b, id) != [];
  }

  // ---------------------------------------------------------------------
  // Lookup in a table with unique ids

  /** With unique ids, SingleOrDefault never throws and finds the one item
      FindIndex locates. */
  lemma LookupUnique(s: seq<Item>, id: Guid)
    requires UniqueIds(s)
    ensures SingleOrDefault(s, id).Success?
    ensures HasId(s, id) ==> SingleOrDefault(s, id) == Success(Some(s[IndexOf(s, id)]))
  {
    MatchesUnique(s, id);
    if HasId(s, id) {
      var k := IndexOf(s, id);
      MatchesMember(s, id, s[k]);
    }
  }

  /** SingleOrDefault throws exactly on a duplicated id. */
  lemma LookupFailsIffDuplicate(s: seq<Item>, id: Guid)
    ensures SingleOrDefault(s, id).Failure? <==> DuplicateId(s, id)
  {
    if DuplicateId(s, id) {
      DuplicateTwoMatches(s, id);
    }
    if SingleOrDefault(s, id).Failure? {
      TwoMatchesDuplicate(s, id);
    }
  }

  // ---------------------------------------------------------------------
  // Append (List.Add)

  /** Appending keeps ids unique exactly when the new id is fresh. */
  lemma AppendUnique(s: seq<Item>, x: Item)
    ensures UniqueIds(s + [x]) <==> UniqueIds(s) && !HasId(s, x.id)
  {
    var t := s + [x];
    assert forall i :: 0 <= i < |s| ==> t[i] == s[i];
    if UniqueIds(t) {
      forall i | 0 <= i < |s| ensures s[i].id != x.id {
        assert t[|s|] == x;
      }
    }
  }

  /** After an append, a lookup of the new id finds it unless the id was
      already taken (then it throws); other ids look up as before. */
  lemma AppendLookup(s: seq<Item>, x: Item, id: Guid)
    ensures SingleOrDefault(s + [x], id) ==
      if id != x.id then SingleOrDefault(s, id)
      else if HasId(s, id) then Failure(MoreThanOneMatch)
      else Success(Some(x))
  {
    MatchesAppend(s, [x], id);
    MatchesSingleton(x, id);
  }

  // ---------------------------------------------------------------------
  // Replace (indexer store)

  /** Replacing by id keeps the list's ids, hence their uniqueness. */
  lemma ReplaceUnique(s: seq<Item>, x: Item)
    requires HasId(s, x.id)
    ensures UniqueIds(Replace(s, x).value) <==> UniqueIds(s)
  {
    var t := Replace(s, x).value;
    assert forall i :: 0 <= i < |s| ==> t[i].id == s[i].id;
  }

  /** After a replace, other ids look up as before and, with unique ids, the
      replaced id finds the new item. */
  lemma ReplaceLookup(s: seq<Item>, x: Item, id: Guid)
    requires HasId(s, x.id)
    ensures id != x.id ==> SingleOrDefault(Replace(s, x).value, id) == SingleOrDefault(s, id)
    ensures UniqueIds(s) && id == x.id ==> SingleOrDefault(Replace(s, x).value, id) == Success(Some(x))
  {
    var k := IndexOf(s, x.id);
    var t := Replace(s, x).value;
    assert s == s[..k] + [s[k]] + s[k + 1..];
    assert t == s[..k] + [x] + s[k + 1..];
    MatchesAppend(s[..k] + [s[k]], s[k + 1..], id);
    MatchesAppend(s[..k], [s[k]], id);
    MatchesAppend(s[..k] + [x], s[k + 1..], id);
    MatchesAppend(s[..k], [x], id);
    MatchesSingleton(s[k], id);
    MatchesSingleton(x, id);
    if UniqueIds(s) && id == x.id {
      ReplaceUnique(s, x);
      LookupUnique(t, id);
      MatchesMember(t, id, x);
    }
  }

  // ---------------------------------------------------------------------
  // Remove (RemoveAt)

  /** Removing an item keeps ids unique. */
  lemma RemoveUnique(s: seq<Item>, id: Guid)
    requires HasId(s, id) && UniqueIds(s)
    ensures UniqueIds(Remove(s, id).value)
  {
    var k := IndexOf(s, id);
    var t := Remove(s, id).value;
    forall i, j | 0 <= i < j < |t| ensures t[i].id != t[j].id {
      var i' := if i < k then i else i + 1;
      var j' := if j < k then j else j + 1;
      assert t[i] == s[i'] && t[j] == s[j'];
    }
  }

  /** After a remove, other ids look up as before. */
  lemma RemoveLookupOther(s: seq<Item>, id: Guid, other: Guid)
    requires HasId(s, id) && other != id
    ensures SingleOrDefault(Remove(s, id).value, other) == SingleOrDefault(s, other)
  {
    var k := IndexOf(s, id);
    var t := Remove(s, id).value;
    assert s == s[..k] + ([s[k]] + s[k + 1..]);
    assert t == s[..k] + s[k + 1..];
    MatchesAppend(s[..k], [s[k]] + s[k + 1..], other);
    MatchesAppend([s[k]], s[k + 1..], other);
    MatchesAppend(s[..k], s[k + 1..], other);
    MatchesSingleton(s[k], other);
  }

  /** With unique ids, the removed id is gone after a remove. */
  lemma RemoveLookupSelf(s: seq<Item>, id: Guid)
    requires HasId(s, id) && UniqueIds(s)
    ensures SingleOrDefault(Remove(s, id).value, id) == Success(None)
  {
    var k := IndexOf(s, id);
    var t := Remove(s, id).value;
    forall i | 0 <= i < |t| ensures t[i].id != id {
      var i' := if i < k then i else i + 1;
      assert t[i] == s[i'] && i' != k;
    }
  }
}
