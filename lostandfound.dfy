/** The lost-and-found records (lostandfound/models.py): the two enumerations,
    the Item check constraint, and the slug the Category and Item
    constructors assign. */
module LostAndFound {
  import opened Wrappers
  import opened Http
  import opened BaseModel
  import opened Slugs

  datatype Reason = LookingFor | Found

  datatype LookingForReason = Lost | Stolen | Other

  /** The value each `Reason` member carries. */
  function ReasonValue(r: Reason): string
  {
    match r
    case LookingFor => "Looking For"
    case Found => "Found"
  }

  /** The text an enumeration column stores for a member: its name. */
  function ReasonName(r: Reason): string
  {
    match r
    case LookingFor => "looking_for"
    case Found => "found"
  }

  /** `NOT(reason = <literal> AND looking_for_reason IS NULL)` evaluated on
      the stored text of a row. */
  predicate CheckConstraint(literal: string, storedReason: string, lookingForReason: Option<LookingForReason>)
  {
    !(storedReason == literal && lookingForReason.None?)
  }

  /** `ck_item_looking_for_reason` as written: it compares the stored
      column with the member value 'Looking For'. */
  predicate AdmittedAsWritten(reason: Reason, lookingForReason: Option<LookingForReason>)
  {
    CheckConstraint(ReasonValue(LookingFor), ReasonName(reason), lookingForReason)
  }

  /** The constraint as written never refuses a row: the stored text is a
      member name, never 'Looking For'. In particular a row looking for
      something with no reason given is admitted. */
  lemma AsWrittenAdmitsEveryRow(reason: Reason, lookingForReason: Option<LookingForReason>)
    ensures AdmittedAsWritten(reason, lookingForReason)
    ensures AdmittedAsWritten(LookingFor, None)
  {
    assert ReasonName(LookingFor)[0] != ReasonValue(LookingFor)[0];
  }

  /** The constraint compared with the text actually stored for
      `looking_for`: a row is admitted exactly when it is not looking for
      something without saying why. */
  function ItemAdmissible(reason: Reason, lookingForReason: Option<LookingForReason>): (ok: bool)
    ensures ok <==> !(reason == LookingFor && lookingForReason.None?)
    ensures reason == Found ==> ok
  {
    CheckConstraint(ReasonName(LookingFor), ReasonName(reason), lookingForReason)
  }

  /** Column width of `slug`, the `max_length` both constructors pass. */
  const SlugMaxLength := 56

  datatype Category = Category(name: Option<string>, slug: string, parentCategoryId: Option<int>, base: BaseFields)

  datatype Item = Item(name: Option<string>, slug: string, description: Option<string>, categoryId: Option<int>,
                       reason: Reason, lookingForReason: Option<LookingForReason>, base: BaseFields)

  function CategorySlugs(categories: seq<Category>): set<string>
  {
    set c | c in categories :: c.slug
  }

  function ItemSlugs(items: seq<Item>): set<string>
  {
    set i | i in items :: i.slug
  }

  /** `kwargs.get('name', '')`. */
  function NameText(name: Option<string>): string
  {
    if name.Some? then name.value else ""
  }

  /** `Category(...)`: whatever slug the caller passes is replaced by
      `slugify_field(name, 56, Category)`, checked against the category
      table only. The other fields are the caller's, and the row gets the
      insert defaults for `actor`. */
  method NewCategory(name: Option<string>, givenSlug: Option<string>, parentCategoryId: Option<int>, actor: Option<int>,
                     categories: seq<Category>, slugify: string -> string, randomString: nat -> string)
    returns (c: Category, ghost draws: nat)
    requires forall i :: |randomString(i)| == RandomLength
    requires exists k :: Candidate(SlugPrefix(NameText(name), SlugMaxLength, slugify), randomString(k)) !in CategorySlugs(categories)
    ensures c.slug !in CategorySlugs(categories)
    ensures c.slug == Candidate(SlugPrefix(NameText(name), SlugMaxLength, slugify), randomString(draws))
    ensures forall i :: 0 <= i < draws ==>
              Candidate(SlugPrefix(NameText(name), SlugMaxLength, slugify), randomString(i)) in CategorySlugs(categories)
    ensures c.name == name && c.parentCategoryId == parentCategoryId && c.base == OnInsert(actor)
  {
    var slug;
    slug, draws := SlugifyField(NameText(name), SlugMaxLength, slugify, randomString, CategorySlugs(categories));
    c := Category(name, slug, parentCategoryId, OnInsert(actor));
  }

  /** `Item(...)`: the same slug rule, checked against the item table only. */
  method NewItem(name: Option<string>, givenSlug: Option<string>, description: Option<string>, categoryId: Option<int>,
                 reason: Reason, lookingForReason: Option<LookingForReason>, actor: Option<int>,
                 items: seq<Item>, slugify: string -> string, randomString: nat -> string)
    returns (item: Item, ghost draws: nat)
    requires forall i :: |randomString(i)| == RandomLength
    requires exists k :: Candidate(SlugPrefix(NameText(name), SlugMaxLength, slugify), randomString(k)) !in ItemSlugs(items)
    ensures item.slug !in ItemSlugs(items)
    ensures item.slug == Candidate(SlugPrefix(NameText(name), SlugMaxLength, slugify), randomString(draws))
    ensures forall i :: 0 <= i < draws ==>
              Candidate(SlugPrefix(NameText(name), SlugMaxLength, slugify), randomString(i)) in ItemSlugs(items)
    ensures item.name == name && item.description == description && item.categoryId == categoryId
    ensures item.reason == reason && item.lookingForReason == lookingForReason && item.base == OnInsert(actor)
  {
    var slug;
    slug, draws := SlugifyField(NameText(name), SlugMaxLength, slugify, randomString, ItemSlugs(items));
    item := Item(name, slug, description, categoryId, reason, lookingForReason, OnInsert(actor));
  }

  /** Committing a constructed item row: the database refuses it when the
      NOT NULL `name` or `description` is missing, when the check
      constraint, read as intended (`ItemAdmissible`), fails, or when its slug
      is already used by another item; otherwise the row is added. */
  function InsertItem(items: seq<Item>, item: Item): (r: Result<seq<Item>, Status>)
    ensures r.Success? <==>
              && item.name.Some? && item.description.Some?
              && !(item.reason == LookingFor && item.lookingForReason.None?)
              && item.slug !in ItemSlugs(items)
    ensures r.Success? ==> r.value == items + [item] && ItemSlugs(r.value) == ItemSlugs(items) + {item.slug}
    ensures r.Failure? ==>
              && r.error == ConstraintViolation
              && (item.name.None? || item.description.None? || item.reason == LookingFor || item.slug in ItemSlugs(items))
  {
    if item.name.Some? && item.description.Some? && ItemAdmissible(item.reason, item.lookingForReason)
       && item.slug !in ItemSlugs(items) then
      Success(items + [item])
    else
      Failure(ConstraintViolation)
  }

  /** An item built by `NewItem` against the current table is refused at
      commit exactly when its name or description is missing, or when it is
      looking for something without a reason. */
  lemma NewItemCommits(items: seq<Item>, item: Item)
    requires item.slug !in ItemSlugs(items)
    ensures InsertItem(items, item).Failure? <==>
              || item.name.None? || item.description.None?
              || (item.reason == LookingFor && item.lookingForReason.None?)
  {
  }
}
