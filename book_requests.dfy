/**
 * The request rules of creating and updating a book: the Joi check of a create body, then the
 * schema; and the `value || stored` merge of an update, then the schema.
 */
module BookRequests {
  import opened Js
  import opened Http
  import opened BookModel

  // ---------------------------------------------------------------- create

  /** A create body: the five known properties as sent, and any other property names, in order. */
  datatype CreateBody = CreateBody(title: Option<Json>, author: Option<Json>, genre: Option<Json>,
                                   description: Option<Json>, price: Option<Json>, unknownKeys: seq<string>)

  /** Joi rejects integers outside the range a double holds exactly. */
  const MaxSafeInteger := 9007199254740991

  function Label(name: string): string {
    "\"" + name + "\""
  }

  /** `Joi.string().required()` on one property: the error it reports, if any. */
  function StringRule(f: Field, v: Option<Json>): (err: Option<string>)
    ensures err.None? <==> GoodString(v)
  {
    match v
    case None => Some(Label(PathName(f)) + " is required")
    case Some(JString(s)) => if s == "" then Some(Label(PathName(f)) + " is not allowed to be empty") else None
    case Some(_) => Some(Label(PathName(f)) + " must be a string")
  }

  /** `Joi.number().required()` on one property: the error it reports, if any. */
  function NumberRule(f: Field, v: Option<Json>): (err: Option<string>)
    ensures err.None? <==> GoodNumber(v)
  {
    match v
    case None => Some(Label(PathName(f)) + " is required")
    case Some(JNumber(n)) =>
      if n < -MaxSafeInteger || MaxSafeInteger < n then Some(Label(PathName(f)) + " must be a safe number") else None
    case Some(_) => Some(Label(PathName(f)) + " must be a number")
  }

  /** A property Joi accepts as a string: sent, a string, and not empty. */
  predicate GoodString(v: Option<Json>) {
    v.Some? && v.value.JString? && v.value.text != ""
  }

  /** A property Joi accepts as a number: sent, a number, and a safe one. */
  predicate GoodNumber(v: Option<Json>) {
    v.Some? && v.value.JNumber? && -MaxSafeInteger <= v.value.number <= MaxSafeInteger
  }

  /** A body the schema object admits: five well-typed properties and nothing else. */
  predicate WellTyped(body: CreateBody) {
    GoodString(body.title) && GoodString(body.author) && GoodString(body.genre)
    && GoodString(body.description) && GoodNumber(body.price) && body.unknownKeys == []
  }

  /**
   * `bookSchema.validate(body)`, stopping at the first error: the known properties in schema
   * order, then any property the schema does not know. It finds an error exactly when the body is
   * not well typed.
   */
  function JoiValidate(body: CreateBody): (err: Option<string>)
    ensures err.None? <==> WellTyped(body)
    ensures body.title.None? ==> err == Some(Label(PathName(Title)) + " is required")
  {
    var checks := [StringRule(Title, body.title), StringRule(Author, body.author), StringRule(Genre, body.genre),
                   StringRule(Description, body.description), NumberRule(Price, body.price)];
    assert (forall i :: 0 <= i < |checks| ==> checks[i].None?)
       <==> checks[0].None? && checks[1].None? && checks[2].None? && checks[3].None? && checks[4].None?;
    FirstError(checks, body.unknownKeys)
  }

  function FirstError(checks: seq<Option<string>>, unknownKeys: seq<string>): (err: Option<string>)
    ensures err.None? <==> (forall i :: 0 <= i < |checks| ==> checks[i].None?) && unknownKeys == []
    ensures forall k :: 0 <= k < |checks| && checks[k].Some? && (forall j :: 0 <= j < k ==> checks[j].None?)
                        ==> err == checks[k]
  {
    if checks != [] then
      if checks[0].Some? then checks[0] else FirstError(checks[1..], unknownKeys)
    else if unknownKeys != [] then
      Some(Label(unknownKeys[0]) + " is not allowed")
    else
      None
  }

  /** The first missing property, in schema order, is the one the error names. */
  lemma FirstMissingNamed(body: CreateBody, f: Field)
    requires f == Author ==> GoodString(body.title)
    requires f == Genre ==> GoodString(body.title) && GoodString(body.author)
    requires f == Description ==> GoodString(body.title) && GoodString(body.author) && GoodString(body.genre)
    requires f == Price ==> GoodString(body.title) && GoodString(body.author) && GoodString(body.genre)
                            && GoodString(body.description)
    requires match f
             case Title => body.title.None?
             case Author => body.author.None?
             case Genre => body.genre.None?
             case Description => body.description.None?
             case Price => body.price.None?
    ensures JoiValidate(body) == Some(Label(PathName(f)) + " is required")
  {
    var checks := [StringRule(Title, body.title), StringRule(Author, body.author), StringRule(Genre, body.genre),
                   StringRule(Description, body.description), NumberRule(Price, body.price)];
    var k := match f case Title => 0 case Author => 1 case Genre => 2 case Description => 3 case Price => 4;
    assert checks[k] == Some(Label(PathName(f)) + " is required");
    assert forall j :: 0 <= j < k ==> checks[j].None?;
  }

  /** The document a create body yields: lines 66-74 with the title's setter. */
  function CreateDocument(body: CreateBody): Document
    requires WellTyped(body)
  {
    NewDocument(Some(body.title.value.text), Some(body.author.value.text), Some(body.genre.value.text),
                Some(body.description.value.text), Some(body.price.value.number))
  }

  /**
   * Validate, build and check a create body. A body that is not well typed is refused with 400
   * and Joi's message; a well-typed one whose title is blank passes Joi, is trimmed to nothing by
   * the setter and is then refused by the schema; any other is admitted with 201 as a well-formed
   * book holding the given values, the title trimmed.
   */
  function Admit(body: CreateBody): (r: Outcome<Book>)
    ensures r.Fail? <==> !WellTyped(body)
    ensures r.Fail? ==> r.code == StatusBadRequest && Some(r.message) == JoiValidate(body)
    ensures r.Thrown? <==> WellTyped(body) && Trim(body.title.value.text) == ""
    ensures r.Thrown? ==> r.message == ValidationMessage([Title])
    ensures r.Ok? ==> && r.code == StatusCreated && WellFormed(r.value)
                      && r.value == Book(Trim(body.title.value.text), body.author.value.text,
                                         body.genre.value.text, body.description.value.text,
                                         body.price.value.number)
  {
    var err := JoiValidate(body);
    if err.Some? then
      Fail(StatusBadRequest, err.value)
    else
      CreateDocumentChecked(body);
      match Validate(CreateDocument(body))
      case Rejected(message) => Thrown(message)
      case Accepted(book) => Ok(StatusCreated, book)
  }

  lemma CreateDocumentChecked(body: CreateBody)
    requires WellTyped(body)
    ensures var r := Validate(CreateDocument(body));
      && (r.Rejected? <==> Trim(body.title.value.text) == "")
      && (r.Rejected? ==> r.message == ValidationMessage([Title]))
      && (r.Accepted? ==> WellFormed(r.book) && r.book.title == Trim(body.title.value.text))
  {
    SaveNewBook(body.title.value.text, body.author.value.text, body.genre.value.text,
                body.description.value.text, body.price.value.number);
  }

  /** The body of the create test: all five fields, so the book is admitted as given. */
  lemma CompleteBodyAdmitted(title: string, author: string, genre: string, description: string, price: int)
    requires Trim(title) != "" && author != "" && genre != "" && description != ""
    requires -MaxSafeInteger <= price <= MaxSafeInteger
    ensures Admit(CreateBody(Some(JString(title)), Some(JString(author)), Some(JString(genre)),
                             Some(JString(description)), Some(JNumber(price)), []))
         == Ok(StatusCreated, Book(Trim(title), author, genre, description, price))
  {
  }

  /** A body holding only a title is refused with 400 because the author is missing. */
  lemma TitleOnlyRefused(title: string)
    requires title != ""
    ensures Admit(CreateBody(Some(JString(title)), None, None, None, None, []))
         == Fail(StatusBadRequest, "\"author\" is required")
  {
    var body := CreateBody(Some(JString(title)), None, None, None, None, []);
    FirstMissingNamed(body, Author);
    assert Admit(body) == Fail(StatusBadRequest, Label(PathName(Author)) + " is required");
    AuthorRequired();
  }

  lemma AuthorRequired()
    ensures Label(PathName(Author)) + " is required" == "\"author\" is required"
  {
  }

  // ---------------------------------------------------------------- update

  /** An update body: each property a value of the book's type, or absent. */
  datatype UpdateBody = UpdateBody(title: Option<string>, author: Option<string>, genre: Option<string>,
                                   description: Option<string>, price: Option<int>)

  /** Lines 89-93: each path takes the request's value when it is truthy and keeps its own otherwise. */
  function TruthyMerge(req: UpdateBody, stored: Book): (r: Book)
    ensures (TruthyString(req.title) ==> r.title == req.title.value) && (!TruthyString(req.title) ==> r.title == stored.title)
    ensures (TruthyString(req.author) ==> r.author == req.author.value) && (!TruthyString(req.author) ==> r.author == stored.author)
    ensures (TruthyString(req.genre) ==> r.genre == req.genre.value) && (!TruthyString(req.genre) ==> r.genre == stored.genre)
    ensures (TruthyString(req.description) ==> r.description == req.description.value)
            && (!TruthyString(req.description) ==> r.description == stored.description)
    ensures (TruthyNumber(req.price) ==> r.price == req.price.value) && (!TruthyNumber(req.price) ==> r.price == stored.price)
    ensures stored.title != "" ==> r.title != ""
    ensures stored.author != "" ==> r.author != ""
    ensures stored.genre != "" ==> r.genre != ""
    ensures stored.description != "" ==> r.description != ""
    ensures stored.price != 0 ==> r.price != 0
  {
    Book(OrString(req.title, stored.title), OrString(req.author, stored.author), OrString(req.genre, stored.genre),
         OrString(req.description, stored.description), OrNumber(req.price, stored.price))
  }

  /** Reference semantics of a partial update: every property the request carries is written. */
  function PresenceMerge(req: UpdateBody, stored: Book): Book {
    Book(if req.title.Some? then req.title.value else stored.title,
         if req.author.Some? then req.author.value else stored.author,
         if req.genre.Some? then req.genre.value else stored.genre,
         if req.description.Some? then req.description.value else stored.description,
         if req.price.Some? then req.price.value else stored.price)
  }

  /**
   * The truthiness merge agrees with writing every present property exactly when no present
   * property is a falsy value that differs from the stored one: an explicit `""` or `0` is lost.
   */
  lemma TruthyMergeVersusPresence(req: UpdateBody, stored: Book)
    ensures TruthyMerge(req, stored) == PresenceMerge(req, stored)
        <==> && (req.title == Some("") ==> stored.title == "")
             && (req.author == Some("") ==> stored.author == "")
             && (req.genre == Some("") ==> stored.genre == "")
             && (req.description == Some("") ==> stored.description == "")
             && (req.price == Some(0) ==> stored.price == 0)
  {
  }

  /** The document lines 86-95 save: the fetched book with the merged paths assigned (the title through its setter). */
  function MergedDocument(req: UpdateBody, stored: Book): Document {
    var merged := TruthyMerge(req, stored);
    NewDocument(Some(merged.title), Some(merged.author), Some(merged.genre), Some(merged.description), Some(merged.price))
  }

  /** Saving the merged document: the schema's verdict on it. */
  function Revise(req: UpdateBody, stored: Book): (r: SchemaResult)
    requires WellFormed(stored)
    ensures r.Rejected? <==> TruthyString(req.title) && Trim(req.title.value) == ""
    ensures r.Rejected? ==> r.message == ValidationMessage([Title])
    ensures r.Accepted? ==> WellFormed(r.book)
  {
    MergedDocumentChecked(req, stored);
    Validate(MergedDocument(req, stored))
  }

  lemma MergedDocumentChecked(req: UpdateBody, stored: Book)
    requires WellFormed(stored)
    ensures var r := Validate(MergedDocument(req, stored));
      && (r.Rejected? <==> TruthyString(req.title) && Trim(req.title.value) == "")
      && (r.Rejected? ==> r.message == ValidationMessage([Title]))
      && (r.Accepted? ==> WellFormed(r.book))
  {
    var merged := TruthyMerge(req, stored);
    if !TruthyString(req.title) {
      TrimFixesTrimmed(stored.title);
    }
    SaveNewBook(merged.title, merged.author, merged.genre, merged.description, merged.price);
  }

  /**
   * Field by field: a path whose request value is falsy keeps its stored value; a truthy one is
   * written (the title trimmed).
   */
  lemma ReviseFieldwise(req: UpdateBody, stored: Book)
    requires WellFormed(stored)
    requires Revise(req, stored).Accepted?
    ensures var b := Revise(req, stored).book;
      && b.title == (if TruthyString(req.title) then Trim(req.title.value) else stored.title)
      && b.author == (if TruthyString(req.author) then req.author.value else stored.author)
      && b.genre == (if TruthyString(req.genre) then req.genre.value else stored.genre)
      && b.description == (if TruthyString(req.description) then req.description.value else stored.description)
      && b.price == (if TruthyNumber(req.price) then req.price.value else stored.price)
  {
  }

  /** An update carrying only a non-zero price changes the price and nothing else. */
  lemma PriceOnlyUpdate(stored: Book, price: int)
    requires WellFormed(stored) && price != 0
    ensures Revise(UpdateBody(None, None, None, None, Some(price)), stored) == Accepted(stored.(price := price))
  {
    ReviseFieldwise(UpdateBody(None, None, None, None, Some(price)), stored);
  }

  /** Empty strings and a zero price cannot overwrite anything: the book is saved unchanged. */
  lemma FalsyValuesKeepBook(stored: Book)
    requires WellFormed(stored)
    ensures Revise(UpdateBody(Some(""), Some(""), Some(""), Some(""), Some(0)), stored) == Accepted(stored)
  {
    ReviseFieldwise(UpdateBody(Some(""), Some(""), Some(""), Some(""), Some(0)), stored);
  }

  /** Sending the same update twice leaves the book as the first one left it. */
  lemma ReviseIdempotent(req: UpdateBody, stored: Book)
    requires WellFormed(stored) && Revise(req, stored).Accepted?
    ensures Revise(req, Revise(req, stored).book) == Revise(req, stored)
  {
    var b := Revise(req, stored).book;
    ReviseFieldwise(req, stored);
    ReviseFieldwise(req, b);
    if TruthyString(req.title) {
      TrimIdempotent(req.title.value);
    }
  }
}
