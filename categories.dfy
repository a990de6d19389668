/** The keyword table that sorts grocery items into categories, and the
    first-match classifier over it (utils/ocrProcessor.ts). */
module Categories {
  import opened Wrappers
  import opened JsString

  /** The table's keys, in declaration order. */
  datatype Category = Produce | Dairy | Meat | Cleaning | Pantry | Other

  const Order: seq<Category> := [Produce, Dairy, Meat, Cleaning, Pantry, Other]

  /** Position of a category in the table. */
  function Rank(c: Category): (r: nat)
    ensures r < |Order| && Order[r] == c
  {
    match c
    case Produce => 0
    case Dairy => 1
    case Meat => 2
    case Cleaning => 3
    case Pantry => 4
    case Other => 5
  }

  /** The key as a string, the value the source returns. */
  function Label(c: Category): string {
    match c
    case Produce => "Produce"
    case Dairy => "Dairy"
    case Meat => "Meat"
    case Cleaning => "Cleaning"
    case Pantry => "Pantry"
    case Other => "Other"
  }

  lemma LabelInjective(c: Category, d: Category)
    requires Label(c) == Label(d)
    ensures c == d
  {
  }

  function Keywords(c: Category): seq<string> {
    match c
    case Produce => ["apple", "banana", "tomato", "lettuce", "carrot", "onion", "potato", "fruit", "vegetable"]
    case Dairy => ["milk", "cheese", "yogurt", "cream", "butter", "egg"]
    case Meat => ["chicken", "beef", "pork", "fish", "turkey", "meat"]
    case Cleaning => ["soap", "detergent", "cleaner", "wipes", "bleach", "sponge"]
    case Pantry => ["bread", "rice", "pasta", "cereal", "flour", "sugar", "oil"]
    case Other => []
  }

  /** `keywords.some(keyword => lowered.includes(keyword))`. */
  predicate Hits(lowered: string, c: Category) {
    exists k :: 0 <= k < |Keywords(c)| && Includes(lowered, Keywords(c)[k])
  }

  /** First category from position `i` of the table on that has a hit. */
  function FirstHitFrom(lowered: string, i: nat): (c: Category)
    requires i <= |Order|
    ensures c == Other || (i <= Rank(c) && Hits(lowered, c))
    ensures forall d :: i <= Rank(d) < Rank(c) ==> !Hits(lowered, d)
    ensures c == Other ==> forall d :: i <= Rank(d) ==> !Hits(lowered, d)
    decreases |Order| - i
  {
    if i == |Order| then Other
    else if Hits(lowered, Order[i]) then Order[i]
    else FirstHitFrom(lowered, i + 1)
  }

  /** The classification of an already lower-cased name: the first category
      in table order with a keyword in the name; `Other` exactly when no
      keyword occurs. */
  function Classify(lowered: string): (c: Category)
    ensures c == Other <==> forall d :: !Hits(lowered, d)
    ensures c != Other ==> Hits(lowered, c)
    ensures forall d :: Rank(d) < Rank(c) ==> !Hits(lowered, d)
  {
    FirstHitFrom(lowered, 0)
  }

  /** `determineCategory`: a loop over the table that returns the first
      category with a hit, and "Other" after the loop. */
  method DetermineCategory(itemName: string) returns (name: string)
    ensures name == Label(Classify(ToLowerCase(itemName)))
  {
    var lowered := ToLowerCase(itemName);
    for i := 0 to |Order|
      invariant forall k :: 0 <= k < i ==> !Hits(lowered, Order[k])
    {
      if Hits(lowered, Order[i]) {
        FirstHitIs(lowered, i);
        return Label(Order[i]);
      }
    }
    FirstHitIs(lowered, |Order|);
    return Label(Other);
  }

  /** A walk over the table that stops at position `i` has found what
      `Classify` finds. */
  lemma FirstHitIs(lowered: string, i: nat)
    requires i <= |Order| && forall k :: 0 <= k < i ==> !Hits(lowered, Order[k])
    requires i < |Order| ==> Hits(lowered, Order[i])
    ensures Classify(lowered) == if i < |Order| then Order[i] else Other
  {
    var c := Classify(lowered);
    if i == |Order| {
      forall d ensures !Hits(lowered, d) {
        assert Order[Rank(d)] == d;
      }
    } else {
      assert Order[Rank(c)] == c;
      assert Rank(Order[i]) == i;
    }
  }

  /** Every keyword is non-empty, so the empty name has no hit and is
      classified "Other". */
  lemma EmptyNameIsOther()
    ensures Classify(ToLowerCase("")) == Other
  {
    assert ToLowerCase("") == [];
    forall d: Category
      ensures !Hits([], d)
    {
      KeywordsNonEmpty(d);
    }
  }

  lemma KeywordsNonEmpty(d: Category)
    ensures forall k :: 0 <= k < |Keywords(d)| ==> |Keywords(d)[k]| > 0
  {
  }

  /** The classifier written into the receipt loop: the same walk over the
      table, but it breaks out with the category it found and otherwise
      leaves the category undefined. */
  method InlineCategory(name: string) returns (category: Option<Category>)
    ensures category == Categorise(name)
  {
    category := None;
    var i := 0;
    while i < |Order|
      invariant i <= |Order| && forall k :: 0 <= k < i ==> !Hits(ToLowerCase(name), Order[k])
    {
      if Hits(ToLowerCase(name), Order[i]) {
        category := Some(Order[i]);
        break;
      }
      i := i + 1;
    }
    FirstHitIs(ToLowerCase(name), i);
  }

  /** The category the inline classifier assigns, if any. */
  function Categorise(name: string): (r: Option<Category>)
    ensures r.None? ==> forall d :: !Hits(ToLowerCase(name), d)
    ensures (forall d :: !Hits(ToLowerCase(name), d)) ==> r.None?
    ensures r.Some? ==> r.value != Other && Hits(ToLowerCase(name), r.value)
    ensures r.Some? ==> forall d :: Rank(d) < Rank(r.value) ==> !Hits(ToLowerCase(name), d)
  {
    var c := Classify(ToLowerCase(name));
    if c == Other then None else Some(c)
  }

  /** The inline classifier never yields "Other", and when it yields a
      category it is the one `determineCategory` returns. */
  lemma InlineNeverOther(name: string)
    ensures Categorise(name) != Some(Other)
    ensures Categorise(name).Some? ==> Label(Categorise(name).value) == Label(Classify(ToLowerCase(name)))
  {
  }
}
