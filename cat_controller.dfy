/**
 The cat catalogue's controller: create with validation, the three
 listings, lookup and delete by id, full replace and single-field update.
 HTTP outcomes are values of `Response`; the repository is the one piece
 of shared state, and every operation is one sequential step on it.
 */
module Controller {
  import opened Model
  import opened Repository

  /** The outcome of an endpoint, with the HTTP status it is sent with. */
  datatype Response<T> = Ok(body: T) | Created(body: T) | BadRequest(reason: string) | NotFound(reason: string)
  {
    function Status(): int
    {
      match this
      case Ok(_) => 200
      case Created(_) => 201
      case BadRequest(_) => 400
      case NotFound(_) => 404
    }
  }

  const CatNotFound: string := "Cat not found"

  // ---------------------------------------------------------------------
  // Create validation

  /** A Java string that is null or has length zero (no trimming). */
  predicate NullOrEmpty(s: JString)
  {
    s.None? || |s.value| == 0
  }

  /** The four rules a new cat must pass, in the order they are checked. */
  datatype Rule = NameRequired | BreedRequired | AgeNotNegative | GenderRequired

  const Rules: seq<Rule> := [NameRequired, BreedRequired, AgeNotNegative, GenderRequired]

  predicate Passes(rule: Rule, c: Cat)
  {
    match rule
    case NameRequired => !NullOrEmpty(c.name)
    case BreedRequired => !NullOrEmpty(c.breed)
    case AgeNotNegative => c.age >= 0
    case GenderRequired => !NullOrEmpty(c.gender)
  }

  function Message(rule: Rule): string
  {
    match rule
    case NameRequired => "Cat name is required"
    case BreedRequired => "Cat breed is required"
    case AgeNotNegative => "Cat age cannot be negative"
    case GenderRequired => "Cat gender is required"
  }

  /** Each rule has its own message, so the message names the rule that failed. */
  lemma MessagesDistinct(a: Rule, b: Rule)
    ensures Message(a) == Message(b) ==> a == b
  {
  }

  /**
   The validation chain of `addCat`: the message of the first rule, in the
   order name, breed, age, gender, that the candidate fails; `None` when it
   passes all four.
   */
  function Validate(c: Cat): (r: Option<string>)
    ensures r.None? <==> forall i :: 0 <= i < |Rules| ==> Passes(Rules[i], c)
    ensures r.Some? ==>
      exists i :: 0 <= i < |Rules| && !Passes(Rules[i], c) && r.value == Message(Rules[i]) &&
        forall j :: 0 <= j < i ==> Passes(Rules[j], c)
  {
    if NullOrEmpty(c.name) then
      assert !Passes(Rules[0], c);
      Some("Cat name is required")
    else if NullOrEmpty(c.breed) then
      assert Passes(Rules[0], c) && !Passes(Rules[1], c);
      Some("Cat breed is required")
    else if c.age < 0 then
      assert Passes(Rules[0], c) && Passes(Rules[1], c) && !Passes(Rules[2], c);
      Some("Cat age cannot be negative")
    else if NullOrEmpty(c.gender) then
      assert Passes(Rules[0], c) && Passes(Rules[1], c) && Passes(Rules[2], c) && !Passes(Rules[3], c);
      Some("Cat gender is required")
    else
      None
  }

  /** An empty name is reported first whatever else is wrong; age 0 is accepted. */
  lemma ValidateExamples(c: Cat)
    ensures NullOrEmpty(c.name) ==> Validate(c) == Some("Cat name is required")
    ensures !NullOrEmpty(c.name) && !NullOrEmpty(c.breed) && c.age == -1 ==>
              Validate(c) == Some("Cat age cannot be negative")
    ensures !NullOrEmpty(c.name) && !NullOrEmpty(c.breed) && c.age == 0 && !NullOrEmpty(c.gender) ==>
              Validate(c) == None
  {
  }

  // ---------------------------------------------------------------------
  // Single-field update

  /** The value handed to `updateCatField`: a string for name or breed, an int for age. */
  datatype FieldValue = Text(text: JString) | Number(number: int)

  /** Java's `'A'..'Z'` to `'a'..'z'` folding; other characters are kept. */
  function LowerAscii(ch: char): char
  {
    if 'A' <= ch <= 'Z' then (ch as int + 32) as char else ch
  }

  /**
   `field.equalsIgnoreCase(fieldType)`. Folding only ASCII letters gives
   Java's answer whenever `field` is one of "name", "age", "breed": no other
   character folds to one of their letters.
   */
  predicate EqualsIgnoreCase(field: string, fieldType: string)
  {
    |field| == |fieldType| && forall i :: 0 <= i < |field| ==> LowerAscii(field[i]) == LowerAscii(fieldType[i])
  }

  /** The value has the type that the matched branch casts it to. */
  predicate Fits(fieldType: string, v: FieldValue)
  {
    && (EqualsIgnoreCase("name", fieldType) ==> v.Text?)
    && (EqualsIgnoreCase("age", fieldType) ==> v.Number?)
    && (EqualsIgnoreCase("breed", fieldType) ==> v.Text?)
  }

  /**
   The dispatch of `updateCatField`: the field named (ignoring case) by
   `fieldType` takes the new value, every other field keeps its value, and
   an unknown field name leaves the cat as it was.
   */
  function ApplyField(cat: Cat, fieldType: string, v: FieldValue): (r: Cat)
    requires Fits(fieldType, v)
    ensures r.id == cat.id && r.gender == cat.gender && r.isAdopted == cat.isAdopted
    ensures r.name == (if EqualsIgnoreCase("name", fieldType) then v.text else cat.name)
    ensures r.age == (if EqualsIgnoreCase("age", fieldType) then v.number else cat.age)
    ensures r.breed == (if EqualsIgnoreCase("breed", fieldType) then v.text else cat.breed)
    ensures (!EqualsIgnoreCase("name", fieldType) && !EqualsIgnoreCase("age", fieldType) &&
             !EqualsIgnoreCase("breed", fieldType)) ==> r == cat
  {
    if EqualsIgnoreCase("name", fieldType) then SetName(cat, v.text)
    else if EqualsIgnoreCase("age", fieldType) then SetAge(cat, v.number)
    else if EqualsIgnoreCase("breed", fieldType) then SetBreed(cat, v.text)
    else cat
  }

  /** The field name matches in any letter case: "NAME" and "Name" both update the name. */
  lemma FieldNameIgnoresCase(cat: Cat, n: JString)
    ensures ApplyField(cat, "NAME", Text(n)) == SetName(cat, n)
    ensures ApplyField(cat, "Name", Text(n)) == SetName(cat, n)
    ensures ApplyField(cat, "gender", Text(n)) == cat
  {
    assert LowerAscii('N') == 'n' && LowerAscii('A') == 'a' && LowerAscii('M') == 'm' && LowerAscii('E') == 'e';
    assert EqualsIgnoreCase("name", "NAME");
    assert EqualsIgnoreCase("name", "Name");
  }

  // ---------------------------------------------------------------------
  // Delete confirmation text

  function DigitChar(d: int): (ch: char)
    requires 0 <= d < 10
    ensures '0' <= ch <= '9' && ch as int - '0' as int == d
  {
    "0123456789"[d]
  }

  /** Java's `Integer.toString` for a non-negative value: its decimal digits. */
  function DecimalString(n: nat): (r: string)
    ensures |r| >= 1
    ensures forall i :: 0 <= i < |r| ==> '0' <= r[i] <= '9'
  {
    if n < 10 then [DigitChar(n)] else DecimalString(n / 10) + [DigitChar(n % 10)]
  }

  /** The number a string of decimal digits denotes, most significant digit first. */
  function DecimalValue(s: string): int
  {
    if s == [] then 0 else DecimalValue(s[..|s| - 1]) * 10 + (s[|s| - 1] as int - '0' as int)
  }

  /** `DecimalString(n)` is `n` written in base ten: reading its digits back gives `n`. */
  lemma {:induction false} DecimalRoundTrip(n: nat)
    ensures DecimalValue(DecimalString(n)) == n
  {
    if n >= 10 {
      var s := DecimalString(n);
      assert s[..|s| - 1] == DecimalString(n / 10);
      DecimalRoundTrip(n / 10);
    }
  }

  function DeletedMessage(id: nat): string
  {
    "Cat with id " + DecimalString(id) + " deleted successfully"
  }

  // ---------------------------------------------------------------------
  // The controller

  class CatController {
    const catRepository: CatRepository

    constructor (repository: CatRepository)
      ensures catRepository == repository
    {
      catRepository := repository;
    }

    /** GET /cats/: every stored cat, in the store's order. */
    method GetAllCats() returns (r: seq<Cat>)
      requires catRepository.Valid()
      ensures r == catRepository.FindAll()
      ensures forall c :: c in r <==> c.id in catRepository.cats && catRepository.cats[c.id] == c
    {
      r := catRepository.FindAll();
    }

    /** GET /cats/not-adopted: the stored cats whose flag is false, in store order. */
    method GetNotAdoptedCats() returns (r: seq<Cat>)
      requires catRepository.Valid()
      ensures r == WithAdopted(catRepository.FindAll(), false)
      ensures forall c :: c in r <==> c.id in catRepository.cats && catRepository.cats[c.id] == c && !c.isAdopted
    {
      var allCats := catRepository.FindAll();
      r := WithAdopted(allCats, false);
    }

    /**
     GET /cats/adopted: the stored cats whose flag is true. An empty result
     is a normal answer, not an error.
     */
    method GetAdoptedCats() returns (r: seq<Cat>)
      requires catRepository.Valid()
      ensures r == WithAdopted(catRepository.FindAll(), true)
      ensures forall c :: c in r <==> c.id in catRepository.cats && catRepository.cats[c.id] == c && c.isAdopted
    {
      r := catRepository.FindByIsAdopted(true);
    }

    /**
     POST /cats/add: a candidate failing a rule is refused with 400 and the
     first failing rule's message, and the store is untouched; otherwise it
     is saved (the controller assigns no id) and returned with 201.
     */
    method AddCat(cat: Cat) returns (r: Response<Cat>)
      requires catRepository.Valid()
      modifies catRepository
      ensures catRepository.Valid()
      ensures Validate(cat).Some? ==>
        r == BadRequest(Validate(cat).value) && r.Status() == 400 && unchanged(catRepository)
      ensures Validate(cat).None? ==>
        && r.Created? && r.Status() == 201
        && SaveEffect(old(catRepository.cats), old(catRepository.ids), cat, r.body,
                      catRepository.cats, catRepository.ids)
    {
      var invalid := Validate(cat);
      if invalid.Some? {
        r := BadRequest(invalid.value);
        return;
      }
      var savedCat := catRepository.Save(cat);
      r := Created(savedCat);
    }

    /** `findCatByIdOrThrow`: the stored cat, or 404 "Cat not found" exactly when the id is absent. */
    function FindCatByIdOrThrow(id: int): (r: Response<Cat>)
      reads catRepository
      requires catRepository.Valid()
      ensures r.Ok? <==> id in catRepository.cats
      ensures r.Ok? ==> r.body == catRepository.cats[id] && r.body.id == id
      ensures !r.Ok? ==> r == NotFound(CatNotFound) && r.Status() == 404
    {
      match catRepository.FindById(id)
      case Some(cat) => Ok(cat)
      case None => NotFound(CatNotFound)
    }

    /** GET /cats/{id}. */
    method GetCatById(id: int) returns (r: Response<Cat>)
      requires catRepository.Valid()
      ensures id in catRepository.cats ==> r == Ok(catRepository.cats[id])
      ensures id !in catRepository.cats ==> r == NotFound(CatNotFound)
    {
      r := FindCatByIdOrThrow(id);
    }

    /**
     DELETE /cats/{id}: an absent id is 404 and changes nothing; a present
     one is removed and every other row stays as it was.
     */
    method DeleteCat(id: int) returns (r: Response<string>)
      requires catRepository.Valid()
      modifies catRepository
      ensures catRepository.Valid()
      ensures id !in catRepository.cats
      ensures old(id !in catRepository.cats) ==> r == NotFound(CatNotFound) && unchanged(catRepository)
      ensures old(id in catRepository.cats) ==>
        && id >= 1 && r == Ok(DeletedMessage(id))
        && catRepository.cats == old(catRepository.cats) - {id}
        && catRepository.ids == Without(old(catRepository.ids), id)
    {
      var found := FindCatByIdOrThrow(id);
      if !found.Ok? {
        r := NotFound(CatNotFound);
        return;
      }
      catRepository.DeleteById(id);
      r := Ok(DeletedMessage(id));
    }

    /**
     PUT /cats/{id}: a present id gets all five client fields from the body
     and keeps its id, with no validation; an absent id is 404 and changes nothing.
     */
    method UpdateCat(id: int, updatedCat: Cat) returns (r: Response<Cat>)
      requires catRepository.Valid()
      modifies catRepository
      ensures catRepository.Valid()
      ensures old(id !in catRepository.cats) ==> r == NotFound(CatNotFound) && unchanged(catRepository)
      ensures old(id in catRepository.cats) ==>
        && r.Ok? && r.body.id == id && SameDetails(r.body, updatedCat)
        && catRepository.cats == old(catRepository.cats)[id := r.body]
        && catRepository.ids == old(catRepository.ids)
    {
      var found := FindCatByIdOrThrow(id);
      if !found.Ok? {
        r := found;
        return;
      }
      var cat := found.body;
      cat := SetName(cat, updatedCat.name);
      cat := SetBreed(cat, updatedCat.breed);
      cat := SetAge(cat, updatedCat.age);
      cat := SetGender(cat, updatedCat.gender);
      cat := SetAdopted(cat, updatedCat.isAdopted);
      var saved := catRepository.Save(cat);
      r := Ok(saved);
    }

    /** `updateCatField`: apply the one-field change to `cat`, then save it. */
    method UpdateCatField(cat: Cat, fieldType: string, newValue: FieldValue) returns (saved: Cat)
      requires catRepository.Valid()
      requires Fits(fieldType, newValue)
      modifies catRepository
      ensures catRepository.Valid()
      ensures SaveEffect(old(catRepository.cats), old(catRepository.ids), ApplyField(cat, fieldType, newValue),
                         saved, catRepository.cats, catRepository.ids)
    {
      var updated := ApplyField(cat, fieldType, newValue);
      saved := catRepository.Save(updated);
    }

    /** PUT /cats/{id}/update/name: only that cat's name changes. */
    method UpdateCatName(id: int, newName: string) returns (r: Response<Cat>)
      requires catRepository.Valid()
      modifies catRepository
      ensures catRepository.Valid()
      ensures old(id !in catRepository.cats) ==> r == NotFound(CatNotFound) && unchanged(catRepository)
      ensures old(id in catRepository.cats) ==>
        && r == Ok(SetName(old(catRepository.cats[id]), Some(newName)))
        && catRepository.cats == old(catRepository.cats)[id := r.body]
        && catRepository.ids == old(catRepository.ids)
    {
      var found := FindCatByIdOrThrow(id);
      if !found.Ok? {
        r := found;
        return;
      }
      assert EqualsIgnoreCase("name", "name");
      var updatedCat := UpdateCatField(found.body, "name", Text(Some(newName)));
      r := Ok(updatedCat);
    }

    /** PUT /cats/{id}/update/age: only that cat's age changes, with no range check. */
    method UpdateCatAge(id: int, newAge: int) returns (r: Response<Cat>)
      requires catRepository.Valid()
      modifies catRepository
      ensures catRepository.Valid()
      ensures old(id !in catRepository.cats) ==> r == NotFound(CatNotFound) && unchanged(catRepository)
      ensures old(id in catRepository.cats) ==>
        && r == Ok(SetAge(old(catRepository.cats[id]), newAge))
        && catRepository.cats == old(catRepository.cats)[id := r.body]
        && catRepository.ids == old(catRepository.ids)
    {
      var found := FindCatByIdOrThrow(id);
      if !found.Ok? {
        r := found;
        return;
      }
      assert EqualsIgnoreCase("age", "age");
      var updatedCat := UpdateCatField(found.body, "age", Number(newAge));
      r := Ok(updatedCat);
    }

    /** PUT /cats/{id}/update/breed: only that cat's breed changes. */
    method UpdateCatBreed(id: int, newBreed: string) returns (r: Response<Cat>)
      requires catRepository.Valid()
      modifies catRepository
      ensures catRepository.Valid()
      ensures old(id !in catRepository.cats) ==> r == NotFound(CatNotFound) && unchanged(catRepository)
      ensures old(id in catRepository.cats) ==>
        && r == Ok(SetBreed(old(catRepository.cats[id]), Some(newBreed)))
        && catRepository.cats == old(catRepository.cats)[id := r.body]
        && catRepository.ids == old(catRepository.ids)
    {
      var found := FindCatByIdOrThrow(id);
      if !found.Ok? {
        r := found;
        return;
      }
      assert EqualsIgnoreCase("breed", "breed");
      var updatedCat := UpdateCatField(found.body, "breed", Text(Some(newBreed)));
      r := Ok(updatedCat);
    }
  }

  /**
   The listing of the controller's test: of cats 1, 2 and 3, where only
   cat 2 is adopted, the not-adopted listing is cats 1 and 3, in that order.
   */
  lemma NotAdoptedExample()
    ensures
      var cat1 := Cat(1, Some("Whiskers"), Some("Siamese"), 2, Some("Male"), false);
      var cat2 := Cat(2, Some("Mittens"), Some("Persian"), 4, Some("Female"), true);
      var cat3 := Cat(3, Some("Shadow"), Some("Tabby"), 1, Some("Female"), false);
      WithAdopted([cat1, cat2, cat3], false) == [cat1, cat3]
  {
  }

  /** The adopted and not-adopted listings of a store together hold each stored cat exactly once. */
  lemma ListingsPartitionStore(repo: CatRepository)
    requires repo.Valid()
    ensures multiset(WithAdopted(repo.FindAll(), true)) + multiset(WithAdopted(repo.FindAll(), false))
            == multiset(repo.FindAll())
    ensures |WithAdopted(repo.FindAll(), true)| + |WithAdopted(repo.FindAll(), false)| == |repo.cats|
  {
    var all := repo.FindAll();
    AdoptionPartition(all);
    assert |multiset(all)| == |all|;
  }

  /** Once a cat is deleted, or was never there, looking its id up is 404 "Cat not found". */
  method DeleteThenGet(controller: CatController, id: int) returns (deleted: Response<string>, fetched: Response<Cat>)
    requires controller.catRepository.Valid()
    modifies controller.catRepository
    ensures deleted.Ok? <==> id in old(controller.catRepository.cats)
    ensures fetched == NotFound(CatNotFound) && fetched.Status() == 404
  {
    deleted := controller.DeleteCat(id);
    fetched := controller.GetCatById(id);
  }
}
