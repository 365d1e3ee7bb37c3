/**
 * The state of the product-management dashboard and its event handlers.
 *
 * The component's `useState` slots become the fields of class `Dashboard`;
 * each handler becomes a method that assigns the result of a pure list
 * operation from module ProductList. A call to the HTTP API is split in two:
 * the method returns the `Request` the handler would send, and the
 * server's answer is a `Reply` parameter. A `Rejected` reply is an awaited
 * call that threw, after which the handler changes nothing.
 */
module ProductDashboard {
  import opened JsText
  import opened ProductList

  datatype Option<T> = None | Some(value: T)

  /** How an awaited API call settled: with the response body, or not at all. */
  datatype Reply<T> = Resolved(data: T) | Rejected

  /** The add/edit form's three text fields. */
  datatype FormData = FormData(title: string, price: string, category: string)

  /** The form as it starts and as every successful submit leaves it. */
  const EmptyForm := FormData("", "", "")

  /** Which form field an input's change event writes. */
  datatype Field = TitleField | PriceField | CategoryField

  /** The API calls a handler can make; the body of a create or update is the form. */
  datatype Request =
    | PostProduct(body: FormData)
    | PutProduct(id: int, body: FormData)
    | DeleteProduct(id: int)

  /** JavaScript truthiness of the editing marker: `null` and the id `0` are falsy. */
  predicate IsTruthy(editingId: Option<int>)
  {
    editingId.Some? && editingId.value != 0
  }

  /**
   * The call a submit makes: an update addressed to the editing marker when
   * it is truthy, a create otherwise; either way the payload is the form.
   */
  function SubmitRequest(editingId: Option<int>, form: FormData): (r: Request)
    ensures r.PostProduct? || r.PutProduct?
    ensures r.body == form
    ensures r.PutProduct? <==> IsTruthy(editingId)
    ensures r.PutProduct? ==> Some(r.id) == editingId
  {
    if IsTruthy(editingId) then PutProduct(editingId.value, form) else PostProduct(form)
  }

  /** The create/update choice sees only truthiness: no marker and the id 0 both create. */
  lemma ZeroIdSelectsCreate(form: FormData)
    ensures SubmitRequest(None, form) == PostProduct(form)
    ensures SubmitRequest(Some(0), form) == PostProduct(form)
  {
  }

  class Dashboard {
    var products: seq<Product>
    var search: string
    var selectedCategory: string
    var formData: FormData
    var editingId: Option<int>

    /** The state before anything is fetched or typed. */
    constructor ()
      ensures products == [] && search == "" && selectedCategory == ""
      ensures formData == EmptyForm && editingId == None
    {
      products := [];
      search := "";
      selectedCategory := "";
      formData := EmptyForm;
      editingId := None;
    }

    /**
     * The rows the table shows: the products whose lower-cased title
     * contains the lower-cased search text and, when a category is
     * selected, whose category is that one, in list order.
     */
    function VisibleProducts(): (r: seq<Product>)
      reads this
      ensures IsSubsequence(r, products)
      ensures forall p :: p in r <==> p in products && IsVisible(p, search, selectedCategory)
      ensures search == "" && selectedCategory == "" ==> r == products
    {
      FilteredShowsAllWhenUnfiltered(products);
      Filtered(products, search, selectedCategory)
    }

    /** The initial fetch of the product list settles; on success the list is replaced wholesale. */
    method LoadProducts(reply: Reply<seq<Product>>)
      modifies this
      ensures products == if reply.Resolved? then reply.data else old(products)
      ensures search == old(search) && selectedCategory == old(selectedCategory)
      ensures formData == old(formData) && editingId == old(editingId)
    {
      if reply.Resolved? {
        products := reply.data;
      }
    }

    /** The search box changes. */
    method SetSearch(text: string)
      modifies this
      ensures search == text
      ensures products == old(products) && selectedCategory == old(selectedCategory)
      ensures formData == old(formData) && editingId == old(editingId)
    {
      search := text;
    }

    /** The category drop-down changes; `""` is the "All Categories" option. */
    method SelectCategory(category: string)
      modifies this
      ensures selectedCategory == category
      ensures products == old(products) && search == old(search)
      ensures formData == old(formData) && editingId == old(editingId)
    {
      selectedCategory := category;
    }

    /** One form input changes; the other two fields keep their text. */
    method ChangeField(field: Field, value: string)
      modifies this
      ensures formData.title == (if field == TitleField then value else old(formData.title))
      ensures formData.price == (if field == PriceField then value else old(formData.price))
      ensures formData.category == (if field == CategoryField then value else old(formData.category))
      ensures products == old(products) && search == old(search)
      ensures selectedCategory == old(selectedCategory) && editingId == old(editingId)
    {
      match field
      case TitleField => formData := formData.(title := value);
      case PriceField => formData := formData.(price := value);
      case CategoryField => formData := formData.(category := value);
    }

    /**
     * The form is submitted and its API call settles with `reply`.
     * Update mode (truthy marker): every entry carrying the marker's id is
     * replaced by the reply and the marker is cleared. Create mode: the
     * reply is prepended, with no duplicate check, and the marker is left as
     * it was. After either success the form is empty; after a rejection
     * nothing changes.
     */
    method Submit(reply: Reply<Product>) returns (request: Request)
      modifies this
      ensures request == SubmitRequest(old(editingId), old(formData))
      ensures search == old(search) && selectedCategory == old(selectedCategory)
      ensures reply.Rejected? ==>
        products == old(products) && formData == old(formData) && editingId == old(editingId)
      ensures reply.Resolved? ==> formData == EmptyForm
      ensures reply.Resolved? && IsTruthy(old(editingId)) ==>
        products == ReplaceById(old(products), old(editingId).value, reply.data) && editingId == None
      ensures reply.Resolved? && !IsTruthy(old(editingId)) ==>
        products == [reply.data] + old(products) && editingId == old(editingId)
    {
      if IsTruthy(editingId) {
        request := PutProduct(editingId.value, formData);
        if reply.Rejected? {
          return;
        }
        products := ReplaceById(products, editingId.value, reply.data);
        editingId := None;
      } else {
        request := PostProduct(formData);
        if reply.Rejected? {
          return;
        }
        products := [reply.data] + products;
      }
      formData := EmptyForm;
    }

    /**
     * A row's Delete button is clicked and the call settles. On success every
     * entry carrying `id` is removed; the editing marker and the form are
     * never touched, so the marker can be left naming a deleted product.
     */
    method Delete(id: int, reply: Reply<()>) returns (request: Request)
      modifies this
      ensures request == DeleteProduct(id)
      ensures products == if reply.Resolved? then RemoveById(old(products), id) else old(products)
      ensures editingId == old(editingId) && formData == old(formData)
      ensures search == old(search) && selectedCategory == old(selectedCategory)
    {
      request := DeleteProduct(id);
      if reply.Resolved? {
        products := RemoveById(products, id);
      }
    }

    /**
     * A row's Edit button is clicked: the marker takes the product's id and
     * the form takes its three fields, overwriting whatever was typed.
     */
    method Edit(product: Product)
      modifies this
      ensures editingId == Some(product.id)
      ensures formData == FormData(product.title, product.price, product.category)
      ensures products == old(products) && search == old(search)
      ensures selectedCategory == old(selectedCategory)
    {
      editingId := Some(product.id);
      formData := FormData(product.title, product.price, product.category);
    }
  }

  /** Searching "mu" shows only the mug; the category "clothing" shows only the hat. */
  method FilterWalkthrough()
  {
    var hat := Product(1, "Hat", "10", "clothing");
    var mug := Product(2, "Mug", "5", "kitchen");
    var d := new Dashboard();
    d.LoadProducts(Resolved([hat, mug]));

    d.SetSearch("mu");
    assert MatchesSearch(mug, "mu") by {
      assert Lower("Mug") == "mug" && Lower("mu") == "mu";
      assert "mu" <= "mug";
    }
    assert !MatchesSearch(hat, "mu") by {
      assert Lower("Hat") == "hat" && Lower("mu") == "mu";
      assert "t"[1..] == "" && "at"[1..] == "t" && "hat"[1..] == "at";
      assert !Contains("t", "mu");
      assert !("mu" <= "at") by { assert "mu"[0] != "at"[0]; }
      assert !("mu" <= "hat") by { assert "mu"[0] != "hat"[0]; }
    }
    FilteredAppend([hat], [mug], "mu", "");
    FilteredSingle(hat, "mu", "");
    FilteredSingle(mug, "mu", "");
    assert d.VisibleProducts() == [mug];

    d.SetSearch("");
    d.SelectCategory("clothing");
    FilteredAppend([hat], [mug], "", "clothing");
    FilteredSingle(hat, "", "clothing");
    FilteredSingle(mug, "", "clothing");
    assert "" <= Lower("Hat");
    assert d.VisibleProducts() == [hat];
  }

  /**
   * An edit round trip, then a delete of the product being edited followed
   * by a submit: the marker was left stale and, the id being non-zero, still
   * truthy, so the update is sent and its reply has no entry to replace.
   */
  method EditWalkthrough()
  {
    var hat := Product(1, "Hat", "10", "clothing");
    var mug := Product(2, "Mug", "5", "kitchen");
    var d := new Dashboard();
    d.LoadProducts(Resolved([hat, mug]));

    d.Edit(mug);
    d.ChangeField(TitleField, "New Title");
    var renamed := Product(2, "New Title", "5", "kitchen");
    var put := d.Submit(Resolved(renamed));
    assert put == PutProduct(2, FormData("New Title", "5", "kitchen"));
    assert d.products == [hat, renamed];
    assert d.editingId == None && d.formData == EmptyForm;

    d.Edit(renamed);
    var del := d.Delete(2, Resolved(()));
    assert d.editingId == Some(2);
    var stale := d.Submit(Resolved(renamed));
    assert stale == PutProduct(2, FormData("New Title", "5", "kitchen"));
    RemoveThenReplaceDropsReply([hat, renamed], 2, renamed);
    assert d.products == RemoveById([hat, renamed], 2);
    assert renamed !in d.products;
  }
}
