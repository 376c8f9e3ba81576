/**
 The record store behind the controller: a table of cats keyed by integer
 id, with the operations of Spring Data's `JpaRepository<Cat, Integer>`
 that the controller calls, plus the derived query `findByIsAdopted`.
 */
module Repository {
  import opened Model

  /** No id occurs twice in `s`. */
  predicate Distinct(s: seq<int>)
  {
    forall i, j :: 0 <= i < j < |s| ==> s[i] != s[j]
  }

  /** A duplicate-free sequence listing exactly the members of a set is as long as the set is large. */
  lemma {:induction false} DistinctIdsCount(ids: seq<int>, keys: set<int>)
    requires Distinct(ids)
    requires forall k :: k in keys <==> k in ids
    ensures |ids| == |keys|
  {
    if ids != [] {
      var rest := ids[1..];
      assert ids == [ids[0]] + rest;
      assert ids[0] !in rest;
      DistinctIdsCount(rest, keys - {ids[0]});
    } else {
      assert forall k :: k !in keys;
    }
  }

  /** A sequence whose elements are pairwise different holds each of them exactly once. */
  lemma {:induction false} DistinctCatsOnce(s: seq<Cat>)
    requires forall i, j :: 0 <= i < j < |s| ==> s[i] != s[j]
    ensures forall c :: c in s ==> multiset(s)[c] == 1
  {
    if s != [] {
      var rest := s[1..];
      assert s == [s[0]] + rest;
      assert s[0] !in rest by {
        forall j | 0 <= j < |rest| ensures rest[j] != s[0] {
          assert rest[j] == s[j + 1];
        }
      }
      assert forall i, j :: 0 <= i < j < |rest| ==> rest[i] != rest[j] by {
        forall i, j | 0 <= i < j < |rest| ensures rest[i] != rest[j] {
          assert rest[i] == s[i + 1] && rest[j] == s[j + 1];
        }
      }
      DistinctCatsOnce(rest);
    }
  }

  /** The rows named by `ids`, in that order. */
  function CatsOf(ids: seq<int>, cats: map<int, Cat>): (r: seq<Cat>)
    requires forall i :: 0 <= i < |ids| ==> ids[i] in cats
    ensures |r| == |ids|
    ensures forall i :: 0 <= i < |ids| ==> r[i] == cats[ids[i]]
  {
    if ids == [] then [] else [cats[ids[0]]] + CatsOf(ids[1..], cats)
  }

  /** `s` with every occurrence of `x` taken out, the rest in order. */
  function Without(s: seq<int>, x: int): (r: seq<int>)
    ensures forall k :: k in r <==> k in s && k != x
    ensures Distinct(s) ==> Distinct(r)
    ensures x !in s ==> r == s
  {
    if s == [] then []
    else
      var rest := Without(s[1..], x);
      assert s == [s[0]] + s[1..];
      assert Distinct(s) ==> s[0] !in rest;
      assert Distinct(s) && s[0] != x ==> Distinct([s[0]] + rest) by {
        if Distinct(s) && s[0] != x {
          var r := [s[0]] + rest;
          forall i, j | 0 <= i < j < |r| ensures r[i] != r[j] {
            if i == 0 { assert r[j] == rest[j - 1]; }
          }
        }
      }
      (if s[0] == x then [] else [s[0]]) + rest
  }

  /** Every row of the listing is stored under its own id, and every such row is listed. */
  lemma {:induction false} CatsOfMembers(ids: seq<int>, cats: map<int, Cat>)
    requires forall i :: 0 <= i < |ids| ==> ids[i] in cats
    requires forall k :: k in cats ==> k in ids
    requires forall k :: k in cats ==> cats[k].id == k
    ensures forall c :: c in CatsOf(ids, cats) <==> c.id in cats && cats[c.id] == c
  {
    var r := CatsOf(ids, cats);
    forall c: Cat | c.id in cats && cats[c.id] == c
      ensures c in r
    {
      var i :| 0 <= i < |ids| && ids[i] == c.id;
      assert r[i] == c;
    }
    forall c | c in r
      ensures c.id in cats && cats[c.id] == c
    {
      var i :| 0 <= i < |r| && r[i] == c;
      assert cats[ids[i]].id == ids[i];
    }
  }

  /** Distinct ids give distinct rows, so each listed row occurs once. */
  lemma {:induction false} CatsOfOnce(ids: seq<int>, cats: map<int, Cat>)
    requires forall i :: 0 <= i < |ids| ==> ids[i] in cats
    requires forall k :: k in cats ==> cats[k].id == k
    requires Distinct(ids)
    ensures forall c :: c in CatsOf(ids, cats) ==> multiset(CatsOf(ids, cats))[c] == 1
  {
    var r := CatsOf(ids, cats);
    forall i, j | 0 <= i < j < |r|
      ensures r[i] != r[j]
    {
      assert r[i].id == ids[i] && r[j].id == ids[j];
    }
    DistinctCatsOnce(r);
  }

  /**
   What `save(c)` does to the table: a cat whose id is already stored
   overwrites that row; any other cat is inserted under a fresh id chosen
   by the store and appended to the row order. Either way the saved cat
   carries the five client fields of `c`.
   */
  ghost predicate SaveEffect(before: map<int, Cat>, beforeIds: seq<int>, c: Cat,
                             saved: Cat, after: map<int, Cat>, afterIds: seq<int>)
  {
    && SameDetails(saved, c)
    && (c.id in before ==> saved == c && after == before[c.id := c] && afterIds == beforeIds)
    && (c.id !in before ==>
          saved.id !in before && after == before[saved.id := saved] && afterIds == beforeIds + [saved.id])
  }

  class CatRepository {
    /** The stored rows, keyed by id. */
    var cats: map<int, Cat>
    /** The order in which `findAll` returns the rows. */
    var ids: seq<int>
    /** The next value of the IDENTITY column. */
    var nextId: int

    ghost predicate Valid()
      reads this
    {
      && 1 <= nextId
      && (forall k :: k in cats ==> cats[k].id == k && 1 <= k < nextId)
      && (forall k :: k in cats <==> k in ids)
      && Distinct(ids)
    }

    constructor ()
      ensures Valid()
      ensures cats == map[] && ids == []
    {
      cats := map[];
      ids := [];
      nextId := 1;
    }

    /** `findAll`: every stored cat, each once, in row order. */
    function FindAll(): (r: seq<Cat>)
      reads this
      requires Valid()
      ensures |r| == |ids| == |cats|
      ensures forall c :: c in r <==> c.id in cats && cats[c.id] == c
      ensures forall c :: c in r ==> multiset(r)[c] == 1
    {
      DistinctIdsCount(ids, cats.Keys);
      assert forall i :: 0 <= i < |ids| ==> ids[i] in ids;
      CatsOfMembers(ids, cats);
      CatsOfOnce(ids, cats);
      CatsOf(ids, cats)
    }

    /** `findById`: the row with that id, if there is one. */
    function FindById(id: int): (r: Option<Cat>)
      reads this
      requires Valid()
      ensures r.Some? <==> id in cats
      ensures r.Some? ==> r.value == cats[id] && r.value.id == id
    {
      if id in cats then Some(cats[id]) else None
    }

    /** `findByIsAdopted`: the stored cats with the given flag, in row order. */
    function FindByIsAdopted(adopted: bool): (r: seq<Cat>)
      reads this
      requires Valid()
      ensures forall c :: c in r <==> c.id in cats && cats[c.id] == c && c.isAdopted == adopted
    {
      WithAdopted(FindAll(), adopted)
    }

    /** `save`: overwrite a stored id, or insert under a fresh one. */
    method Save(c: Cat) returns (saved: Cat)
      requires Valid()
      modifies this
      ensures Valid()
      ensures SaveEffect(old(cats), old(ids), c, saved, cats, ids)
      ensures saved.id in cats && cats[saved.id] == saved
    {
      if c.id in cats {
        cats := cats[c.id := c];
        saved := c;
      } else {
        saved := c.(id := nextId);
        cats := cats[nextId := saved];
        ids := ids + [nextId];
        nextId := nextId + 1;
      }
    }

    /** `deleteById`: remove the row with that id; an absent id changes nothing. */
    method DeleteById(id: int)
      requires Valid()
      modifies this
      ensures Valid()
      ensures cats == old(cats) - {id}
      ensures ids == Without(old(ids), id)
      ensures id !in old(cats) ==> ids == old(ids)
    {
      if id in cats {
        cats := cats - {id};
        ids := Without(ids, id);
      }
    }
  }
}
