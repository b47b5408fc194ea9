/**
 * The add-sweet form (`AddSweet`): field-by-field validation into an error map, and a
 * submit that only reaches the server when the map is empty.
 */
module AddSweetForm {
  import opened Wrappers
  import opened Http
  import opened Messages
  import opened Domain
  import opened Guard
  import opened Inventory
  import opened SweetList

  /** A numeric input: its text and the number `Number(text)` gives (`None` for NaN). */
  datatype NumField = NumField(text: string, value: Option<int>)

  /** The form's inputs, as typed. */
  datatype SweetForm = SweetForm(
    name: string,
    category: string,
    price: NumField,
    quantity: NumField,
    image: string,
    description: string)

  /** The inputs an error can be attached to. */
  datatype Field = Name | Category | Price | Quantity | Image | Description

  const NameRequired := "Name is required."
  const CategoryRequired := "Category is required."
  const DescriptionRequired := "Description is required."
  const PriceInvalid := "Price must be a positive number (e.g., 50)."
  const QuantityInvalid := "Quantity must be a non-negative number."
  const FixErrors := "Please correct the errors in the form before submitting."

  predicate BadPrice(p: NumField)
  {
    p.text == "" || p.value.None? || p.value.value <= 0
  }

  predicate BadQuantity(q: NumField)
  {
    q.text == "" || q.value.None? || q.value.value < 0
  }

  /** The form passes: name, category and description filled, price positive, quantity not negative. */
  predicate Acceptable(f: SweetForm)
  {
    f.name != "" && f.category != "" && f.description != "" && !BadPrice(f.price) && !BadQuantity(f.quantity)
  }

  /** The row a valid form asks the server to store, numbers converted. */
  function FieldsOf(f: SweetForm): SweetFields
    requires Acceptable(f)
  {
    SweetFields(f.name, f.category, f.price.value.value, f.quantity.value.value, f.image, f.description)
  }

  class AddSweetPage {
    var form: SweetForm
    var errors: map<Field, string>

    constructor (form: SweetForm)
      ensures this.form == form && errors == map[]
    {
      this.form := form;
      errors := map[];
    }

    /**
     * `validate`: one error per failing input, image never checked; the form passes
     * exactly when no error was recorded.
     */
    method Validate() returns (ok: bool)
      modifies this
      ensures form == old(form)
      ensures Name in errors <==> form.name == ""
      ensures Category in errors <==> form.category == ""
      ensures Description in errors <==> form.description == ""
      ensures Price in errors <==> BadPrice(form.price)
      ensures Quantity in errors <==> BadQuantity(form.quantity)
      ensures Image !in errors
      ensures Name in errors ==> errors[Name] == NameRequired
      ensures Category in errors ==> errors[Category] == CategoryRequired
      ensures Description in errors ==> errors[Description] == DescriptionRequired
      ensures Price in errors ==> errors[Price] == PriceInvalid
      ensures Quantity in errors ==> errors[Quantity] == QuantityInvalid
      ensures ok <==> errors == map[]
      ensures ok <==> Acceptable(form)
    {
      var found: map<Field, string> := map[];
      if form.name == "" {
        found := found[Name := NameRequired];
      }
      if form.category == "" {
        found := found[Category := CategoryRequired];
      }
      if form.description == "" {
        found := found[Description := DescriptionRequired];
      }
      if BadPrice(form.price) {
        found := found[Price := PriceInvalid];
      }
      if BadQuantity(form.quantity) {
        found := found[Quantity := QuantityInvalid];
      }
      errors := found;
      ok := |found| == 0;
      if !ok {
        assert exists fld :: fld in found;
      }
    }

    /**
     * `submit`: an invalid form shows an error and sends nothing; a valid one calls
     * `addSweet` once, with price and quantity as numbers, and moves to `/admin` when the
     * call succeeds.
     */
    method Submit(store: SweetStore, server: Catalog, auth: Gate)
      returns (sent: Option<SweetFields>, notice: Option<Notice>, nav: Option<string>)
      requires server.Valid()
      modifies this, store, server
      ensures server.Valid()
      ensures form == old(form)
      ensures !Acceptable(form) ==>
        && sent.None? && notice == Some(Notice(FixErrors, Error)) && nav.None?
        && store.sweets == old(store.sweets) && server.sweets == old(server.sweets)
      ensures Acceptable(form) ==>
        && sent == Some(FieldsOf(form)) && notice.None?
        && (nav == Some("/admin") <==> auth.Next?)
        && (auth.Next? ==> |store.sweets| == |old(store.sweets)| + 1 && store.sweets[0].name == form.name)
      ensures server.ledger == old(server.ledger)
      ensures Acceptable(form) && auth.Next? ==>
        && |store.sweets| >= 1
        && store.sweets[0] == Stored(store.sweets[0].id, FieldsOf(form))
        && store.sweets[1..] == old(store.sweets)
        && store.sweets[0].id !in old(server.sweets)
        && server.sweets == old(server.sweets)[store.sweets[0].id := store.sweets[0]]
      ensures Acceptable(form) && auth.Reject? ==>
        store.sweets == old(store.sweets) && server.sweets == old(server.sweets)
    {
      var ok := Validate();
      if !ok {
        return None, Some(Notice(FixErrors, Error)), None;
      }
      var fields := FieldsOf(form);
      var r := store.AddSweet(server, auth, fields);
      sent, notice := Some(fields), None;
      nav := if r.Ok? then Some("/admin") else None;
    }
  }
}
