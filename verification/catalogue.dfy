/** The admin dashboard's product catalogue: the product records, the
    filtered view shown in the table, and the delete, update and add
    operations applied when the editor form is submitted. */
module Catalogue {
  import Seqs
  import Text
  import Features
  import opened Optional

  datatype Category = Anthracite | Bituminous | Thermal

  datatype Status = Active | Draft

  datatype Product = Product(
    id: string,
    name: string,
    category: Category,
    description: string,
    features: seq<string>,
    status: Status)

  /** The value the category select and the stored record use. */
  function CategoryValue(c: Category): string
  {
    match c
    case Anthracite => "anthracite"
    case Bituminous => "bituminous"
    case Thermal => "thermal"
  }

  /** The category filter value that lets every category through. */
  const AllCategories: string := "all"

  /** The catalogue used when nothing has been stored yet. */
  const InitialProducts: seq<Product> := [
    Product("1", "Premium Anthracite Coal", Anthracite,
      "High-grade coal used in metallurgy with exceptional carbon content.",
      ["High Carbon Content", "Low Impurities", "Metallurgical Grade"], Active),
    Product("2", "Industrial Bituminous Coal", Bituminous,
      "Versatile coal for power generation and industrial heating.",
      ["Power Generation", "Industrial Heating", "Consistent Quality"], Active),
    Product("3", "Thermal Coal Standard", Thermal,
      "Dense energy source for the global energy market.",
      ["High Energy Density", "Reliable Supply", "Market Standard"], Active)
  ]

  /** The identifiers of a catalogue, position by position. */
  function Ids(products: seq<Product>): seq<string>
  {
    Seqs.Map(products, (p: Product) => p.id)
  }

  predicate UniqueIds(products: seq<Product>)
  {
    forall i, j :: 0 <= i < j < |products| ==> products[i].id != products[j].id
  }

  // ---------------------------------------------------------------------
  // The filtered view

  /** Case-insensitive substring search on the product name. */
  predicate MatchesSearch(p: Product, term: string)
  {
    Text.Contains(Text.Lower(p.name), Text.Lower(term))
  }

  predicate MatchesCategory(p: Product, filter: string)
  {
    filter == AllCategories || CategoryValue(p.category) == filter
  }

  predicate Matches(p: Product, term: string, filter: string)
  {
    MatchesSearch(p, term) && MatchesCategory(p, filter)
  }

  /** The rows the product table shows for a search term and a category
      filter: exactly the matching products, in catalogue order. */
  function Visible(products: seq<Product>, term: string, filter: string): (view: seq<Product>)
    ensures Seqs.IsSubsequence(view, products)
    ensures forall i :: 0 <= i < |view| ==> Matches(view[i], term, filter)
    ensures forall p :: p in products && Matches(p, term, filter) ==> p in view
    ensures forall p :: multiset(view)[p] == if Matches(p, term, filter) then multiset(products)[p] else 0
  {
    Seqs.Filter(products, (p: Product) => Matches(p, term, filter))
  }

  /** With no search term and the "all" filter the whole catalogue is shown. */
  lemma VisibleUnfiltered(products: seq<Product>)
    ensures Visible(products, "", AllCategories) == products
  {
    assert Text.Lower("") == "";
    forall i | 0 <= i < |products|
      ensures Matches(products[i], "", AllCategories)
    {
      Text.ContainsEmpty(Text.Lower(products[i].name));
    }
    Seqs.FilterKeepsAll(products, (p: Product) => Matches(p, "", AllCategories));
  }

  /** The search ignores the case of the term. */
  lemma VisibleIgnoresCase(products: seq<Product>, term: string, filter: string)
    ensures Visible(products, Text.Lower(term), filter) == Visible(products, term, filter)
  {
    Text.LowerIdempotent(term);
    Seqs.FilterCongruent(products,
      (p: Product) => Matches(p, Text.Lower(term), filter),
      (p: Product) => Matches(p, term, filter));
  }

  /** A filter value that is neither "all" nor a category shows nothing.
      The category select only offers those four values, so this covers a
      filter value that reaches the view some other way, for instance from
      stored or foreign state. */
  lemma VisibleUnknownCategory(products: seq<Product>, term: string, filter: string)
    requires filter != AllCategories
    requires forall c: Category :: CategoryValue(c) != filter
    ensures Visible(products, term, filter) == []
  {
  }

  // ---------------------------------------------------------------------
  // Delete, update, add

  /** Removes every product with the given id; the others stay, in order. */
  function Delete(products: seq<Product>, id: string): (r: seq<Product>)
    ensures forall i :: 0 <= i < |r| ==> r[i].id != id
    ensures Seqs.IsSubsequence(r, products)
    ensures forall p :: p in products && p.id != id ==> p in r
    ensures forall p :: multiset(r)[p] == if p.id == id then 0 else multiset(products)[p]
  {
    Seqs.Filter(products, (p: Product) => p.id != id)
  }

  /** Deleting an id no product carries changes nothing. */
  lemma DeleteAbsent(products: seq<Product>, id: string)
    requires forall i :: 0 <= i < |products| ==> products[i].id != id
    ensures Delete(products, id) == products
  {
    Seqs.FilterKeepsAll(products, (p: Product) => p.id != id);
  }

  /** Deleting the same id twice is deleting it once. */
  lemma DeleteIdempotent(products: seq<Product>, id: string)
    ensures Delete(Delete(products, id), id) == Delete(products, id)
  {
    Seqs.FilterIdempotent(products, (p: Product) => p.id != id);
  }

  /** Replaces every product carrying id by the replacement. */
  function Update(products: seq<Product>, id: string, replacement: Product): (r: seq<Product>)
    ensures |r| == |products|
    ensures forall i :: 0 <= i < |products| && products[i].id == id ==> r[i] == replacement
    ensures forall i :: 0 <= i < |products| && products[i].id != id ==> r[i] == products[i]
  {
    Seqs.Map(products, (p: Product) => if p.id == id then replacement else p)
  }

  /** An update that keeps the edited id keeps every id of the catalogue. */
  lemma UpdateKeepsIds(products: seq<Product>, id: string, replacement: Product)
    requires replacement.id == id
    ensures Ids(Update(products, id, replacement)) == Ids(products)
  {
  }

  /** Updating an id no product carries changes nothing. */
  lemma UpdateAbsent(products: seq<Product>, id: string, replacement: Product)
    requires forall i :: 0 <= i < |products| ==> products[i].id != id
    ensures Update(products, id, replacement) == products
  {
  }

  /** Updating an id with the product every holder of that id already is
      changes nothing. */
  lemma UpdateWithSame(products: seq<Product>, id: string, replacement: Product)
    requires forall i :: 0 <= i < |products| && products[i].id == id ==> products[i] == replacement
    ensures Update(products, id, replacement) == products
  {
  }

  /** After an update that keeps the id, deleting that id removes exactly
      what deleting it before the update would have. */
  lemma {:induction false} DeleteAfterUpdate(products: seq<Product>, id: string, replacement: Product)
    requires replacement.id == id
    ensures Delete(Update(products, id, replacement), id) == Delete(products, id)
  {
    if products != [] {
      DeleteAfterUpdate(products[1..], id, replacement);
      var updated := Update(products, id, replacement);
      assert updated[1..] == Update(products[1..], id, replacement);
    }
  }

  /** Appends a new product at the end of the catalogue. */
  function Add(products: seq<Product>, product: Product): (r: seq<Product>)
    ensures |r| == |products| + 1
    ensures r[..|products|] == products
    ensures r[|products|] == product
  {
    products + [product]
  }

  /** Deleting the id of a product just added with a fresh id restores the
      catalogue as it was before. */
  lemma DeleteUndoesAdd(products: seq<Product>, product: Product)
    requires forall i :: 0 <= i < |products| ==> products[i].id != product.id
    ensures Delete(Add(products, product), product.id) == products
  {
    var keep := (p: Product) => p.id != product.id;
    Seqs.FilterAppend(products, [product], keep);
    Seqs.FilterKeepsAll(products, keep);
    assert Seqs.Filter([product], keep) == [];
  }

  // ---------------------------------------------------------------------
  // The editor form

  /** The fields of the product editor; features is the comma-separated
      text field. */
  datatype Form = Form(
    name: string,
    category: Category,
    description: string,
    features: string,
    status: Status)

  /** The product being edited (None when adding) and the form contents. */
  datatype Editor = Editor(editing: Option<Product>, form: Form)

  const BlankForm: Form := Form("", Anthracite, "", "", Active)

  /** Opens the editor on an existing product, or on a blank form to add one. */
  function OpenEditor(product: Option<Product>): (e: Editor)
    ensures e.editing == product
    ensures product.None? ==> e.form.name == [] && e.form.description == [] && e.form.features == []
    ensures product.None? ==> e.form.category == Anthracite && e.form.status == Active
    ensures product.Some? ==>
      && e.form.name == product.value.name
      && e.form.category == product.value.category
      && e.form.description == product.value.description
      && e.form.status == product.value.status
    ensures product.Some? ==> e.form.features == Features.Format(product.value.features)
    ensures product.Some? && Features.AllWellFormed(product.value.features) ==>
      Features.Parse(e.form.features) == product.value.features
  {
    match product
    case None => Editor(None, BlankForm)
    case Some(p) =>
      Features.ParseFormatIfWellFormed(p.features);
      Editor(product, Form(p.name, p.category, p.description, Features.Format(p.features), p.status))
  }

  /** The id the submitted record gets: the edited product's id when it is a
      non-empty string, otherwise the freshly generated one. */
  function SubmittedId(editing: Option<Product>, freshId: string): (id: string)
    ensures editing.Some? && editing.value.id != [] ==> id == editing.value.id
    ensures editing.None? || editing.value.id == [] ==> id == freshId
  {
    match editing
    case Some(p) => if p.id != [] then p.id else freshId
    case None => freshId
  }

  /** The record built from the editor when the form is submitted. */
  function Submitted(e: Editor, freshId: string): (p: Product)
    ensures p.id == SubmittedId(e.editing, freshId)
    ensures p.name == e.form.name && p.description == e.form.description
    ensures p.category == e.form.category && p.status == e.form.status
    ensures p.features == Features.Parse(e.form.features)
    ensures Features.AllWellFormed(p.features)
  {
    Product(SubmittedId(e.editing, freshId), e.form.name, e.form.category,
      e.form.description, Features.Parse(e.form.features), e.form.status)
  }

  /** Submitting the editor: replace the edited product, or add a new one. */
  function Submit(products: seq<Product>, e: Editor, freshId: string): (r: seq<Product>)
    ensures e.editing.None? ==>
      && |r| == |products| + 1
      && r[..|products|] == products
      && r[|products|] == Submitted(e, freshId)
      && r[|products|].id == freshId
    ensures e.editing.Some? ==> |r| == |products|
    ensures e.editing.Some? ==> forall i :: 0 <= i < |products| ==>
      if products[i].id == e.editing.value.id then r[i] == Submitted(e, freshId) else r[i] == products[i]
    ensures e.editing.Some? && e.editing.value.id != [] ==> Ids(r) == Ids(products)
  {
    match e.editing
    case Some(p) =>
      var q := Submitted(e, freshId);
      assert p.id != [] ==> Ids(Update(products, p.id, q)) == Ids(products) by {
        if p.id != [] {
          UpdateKeepsIds(products, p.id, q);
        }
      }
      Update(products, p.id, q)
    case None =>
      Add(products, Submitted(e, freshId))
  }

  /** Opening the editor on a product and submitting it unchanged leaves the
      catalogue as it was, provided the product's features survive the text
      field and no other product shares its id. */
  lemma EditUnchanged(products: seq<Product>, p: Product, freshId: string)
    requires p.id != []
    requires Features.AllWellFormed(p.features)
    requires forall i :: 0 <= i < |products| && products[i].id == p.id ==> products[i] == p
    ensures Submit(products, OpenEditor(Some(p)), freshId) == products
  {
    var e := OpenEditor(Some(p));
    assert Submitted(e, freshId) == p;
    assert Submit(products, e, freshId) == Update(products, p.id, p);
    UpdateWithSame(products, p.id, p);
  }

  /** The feature lists of the seed catalogue are well formed. */
  lemma SeedFeaturesWellFormed()
    ensures Features.AllWellFormed(InitialProducts[0].features)
    ensures Features.AllWellFormed(InitialProducts[1].features)
    ensures Features.AllWellFormed(InitialProducts[2].features)
  {
    AnthraciteFeaturesWellFormed();
    BituminousFeaturesWellFormed();
    ThermalFeaturesWellFormed();
  }

  lemma AnthraciteFeaturesWellFormed()
    ensures Features.AllWellFormed(["High Carbon Content", "Low Impurities", "Metallurgical Grade"])
  {
    FeatureTripleWellFormed("High Carbon Content", "Low Impurities", "Metallurgical Grade");
  }

  lemma BituminousFeaturesWellFormed()
    ensures Features.AllWellFormed(["Power Generation", "Industrial Heating", "Consistent Quality"])
  {
    FeatureTripleWellFormed("Power Generation", "Industrial Heating", "Consistent Quality");
  }

  lemma ThermalFeaturesWellFormed()
    ensures Features.AllWellFormed(["High Energy Density", "Reliable Supply", "Market Standard"])
  {
    FeatureTripleWellFormed("High Energy Density", "Reliable Supply", "Market Standard");
  }

  /** Only ASCII letters and spaces. */
  predicate LettersAndSpaces(f: string)
  {
    forall i :: 0 <= i < |f| ==> 'A' <= f[i] <= 'Z' || 'a' <= f[i] <= 'z' || f[i] == ' '
  }

  /** A feature of letters and inner spaces survives the text field. */
  lemma LetterFeatureWellFormed(f: string)
    requires f != [] && LettersAndSpaces(f) && f[0] != ' ' && f[|f| - 1] != ' '
    ensures Features.WellFormed(f)
  {
  }

  /** Three features of letters and inner spaces form a well-formed list. */
  lemma FeatureTripleWellFormed(a: string, b: string, c: string)
    requires a != [] && LettersAndSpaces(a) && a[0] != ' ' && a[|a| - 1] != ' '
    requires b != [] && LettersAndSpaces(b) && b[0] != ' ' && b[|b| - 1] != ' '
    requires c != [] && LettersAndSpaces(c) && c[0] != ' ' && c[|c| - 1] != ' '
    ensures Features.AllWellFormed([a, b, c])
  {
    LetterFeatureWellFormed(a);
    LetterFeatureWellFormed(b);
    LetterFeatureWellFormed(c);
  }

  /** The seed catalogue has distinct non-empty ids and only well-formed
      features. */
  lemma InitialProductsWellFormed()
    ensures UniqueIds(InitialProducts)
    ensures forall i :: 0 <= i < |InitialProducts| ==>
      InitialProducts[i].id != [] && Features.AllWellFormed(InitialProducts[i].features)
  {
    SeedFeaturesWellFormed();
  }

  /** Every seed product can be opened and saved without changing the
      catalogue. */
  lemma InitialProductsEditUnchanged(i: nat, freshId: string)
    requires i < |InitialProducts|
    ensures Submit(InitialProducts, OpenEditor(Some(InitialProducts[i])), freshId) == InitialProducts
  {
    InitialProductsWellFormed();
    EditUnchanged(InitialProducts, InitialProducts[i], freshId);
  }
}
