/**
 The `Cat` entity of the catalogue: six fields with Lombok-generated
 setters and field-wise equality, and the adoption-flag filter that both
 listing endpoints are built on.
 */
module Model {

  datatype Option<T> = None | Some(value: T)

  /** A Java `String` field, which may hold null. */
  type JString = Option<string>

  /**
   The persisted cat. The constructor takes the fields in the order of the
   all-args constructor: id, name, breed, age, gender, isAdopted.
   */
  datatype Cat = Cat(id: int, name: JString, breed: JString, age: int, gender: JString, isAdopted: bool)

  /** The five fields a client controls agree (the id is the store's). */
  predicate SameDetails(a: Cat, b: Cat)
  {
    a.name == b.name && a.breed == b.breed && a.age == b.age &&
    a.gender == b.gender && a.isAdopted == b.isAdopted
  }

  /** Lombok's generated `equals`: two cats are equal when all six fields are. */
  function Equals(a: Cat, b: Cat): (r: bool)
    ensures r <==> a == b
    ensures r ==> SameDetails(a, b) && a.id == b.id
  {
    a.id == b.id && a.name == b.name && a.breed == b.breed &&
    a.age == b.age && a.gender == b.gender && a.isAdopted == b.isAdopted
  }

  // Generated setters: each one writes its own field and leaves the other five alone.

  function SetName(c: Cat, name: JString): (r: Cat)
    ensures r.name == name
    ensures r.id == c.id && r.breed == c.breed && r.age == c.age && r.gender == c.gender && r.isAdopted == c.isAdopted
  {
    c.(name := name)
  }

  function SetBreed(c: Cat, breed: JString): (r: Cat)
    ensures r.breed == breed
    ensures r.id == c.id && r.name == c.name && r.age == c.age && r.gender == c.gender && r.isAdopted == c.isAdopted
  {
    c.(breed := breed)
  }

  function SetAge(c: Cat, age: int): (r: Cat)
    ensures r.age == age
    ensures r.id == c.id && r.name == c.name && r.breed == c.breed && r.gender == c.gender && r.isAdopted == c.isAdopted
  {
    c.(age := age)
  }

  function SetGender(c: Cat, gender: JString): (r: Cat)
    ensures r.gender == gender
    ensures r.id == c.id && r.name == c.name && r.breed == c.breed && r.age == c.age && r.isAdopted == c.isAdopted
  {
    c.(gender := gender)
  }

  function SetAdopted(c: Cat, adopted: bool): (r: Cat)
    ensures r.isAdopted == adopted
    ensures r.id == c.id && r.name == c.name && r.breed == c.breed && r.age == c.age && r.gender == c.gender
  {
    c.(isAdopted := adopted)
  }

  /**
   The cats of `cats` whose adoption flag is `adopted`, in their original
   order: the stream filter of the not-adopted listing and the derived
   query `findByIsAdopted`.
   */
  function WithAdopted(cats: seq<Cat>, adopted: bool): (r: seq<Cat>)
    ensures forall c :: c in r <==> c in cats && c.isAdopted == adopted
    ensures |r| <= |cats|
  {
    if cats == [] then []
    else (if cats[0].isAdopted == adopted then [cats[0]] else []) + WithAdopted(cats[1..], adopted)
  }

  /** The filter keeps order: filtering a concatenation filters each part. */
  lemma {:induction false} WithAdoptedAppend(a: seq<Cat>, b: seq<Cat>, adopted: bool)
    ensures WithAdopted(a + b, adopted) == WithAdopted(a, adopted) + WithAdopted(b, adopted)
  {
    if a != [] {
      assert (a + b)[1..] == a[1..] + b;
      WithAdoptedAppend(a[1..], b, adopted);
    } else {
      assert a + b == b;
    }
  }

  /**
   The adopted and the not-adopted cats partition any listing: every cat
   occurrence lands in exactly one of the two results.
   */
  lemma {:induction false} AdoptionPartition(cats: seq<Cat>)
    ensures multiset(WithAdopted(cats, true)) + multiset(WithAdopted(cats, false)) == multiset(cats)
  {
    if cats != [] {
      var head, tail := cats[0], cats[1..];
      AdoptionPartition(tail);
      assert cats == [head] + tail;
      var t, f := WithAdopted(tail, true), WithAdopted(tail, false);
      if head.isAdopted {
        assert WithAdopted(cats, true) == [head] + t;
        assert WithAdopted(cats, false) == f;
      } else {
        assert WithAdopted(cats, true) == t;
        assert WithAdopted(cats, false) == [head] + f;
      }
    }
  }
}
