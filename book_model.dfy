/**
 * The Book schema: five required paths, a trimming setter on the title, and the required-path
 * validation Mongoose runs when a document is saved.
 */
module BookModel {
  import opened Js

  type BookId = nat

  /** A saved book: four strings and a number (prices are integers in this model). */
  datatype Book = Book(title: string, author: string, genre: string, description: string, price: int)

  /** A saved book together with the identifier the store gave it. */
  datatype StoredBook = StoredBook(id: BookId, book: Book)

  /** The schema's paths, in declaration order. */
  datatype Field = Title | Author | Genre | Description | Price

  const SchemaOrder: seq<Field> := [Title, Author, Genre, Description, Price]

  function PathName(f: Field): string {
    match f
    case Title => "title"
    case Author => "author"
    case Genre => "genre"
    case Description => "description"
    case Price => "price"
  }

  /** The message each path's `required` rule carries. */
  function RequiredMessage(f: Field): string {
    match f
    case Title => "Please add a book title"
    case Author => "Please add an author"
    case Genre => "Please add a genre"
    case Description => "Please add a description"
    case Price => "Please add a price"
  }

  lemma SchemaOrderListsEveryField(f: Field)
    ensures f in SchemaOrder
  {
    match f
    case Title => assert SchemaOrder[0] == f;
    case Author => assert SchemaOrder[1] == f;
    case Genre => assert SchemaOrder[2] == f;
    case Description => assert SchemaOrder[3] == f;
    case Price => assert SchemaOrder[4] == f;
  }

  // ---------------------------------------------------------------- trimming

  /** White space and line terminators as `String.prototype.trim` removes them. */
  predicate IsWhitespace(c: char) {
    // tab, line feed, vertical tab, form feed, carriage return, space
    c == '\t' || c == '\n' || c == '\U{B}' || c == '\U{C}' || c == '\r' || c == ' '
    // no-break space, ogham space mark, the en quad .. hair space block
    || c == '\U{A0}' || c == '\U{1680}' || ('\U{2000}' <= c <= '\U{200A}')
    // line and paragraph separators, narrow no-break, medium mathematical, ideographic space, BOM
    || c == '\U{2028}' || c == '\U{2029}' || c == '\U{202F}' || c == '\U{205F}' || c == '\U{3000}' || c == '\U{FEFF}'
  }

  /** Drops leading white space: the result is the suffix of `s` that starts at its first non-blank. */
  function TrimStart(s: string): (r: string)
    ensures |r| <= |s| && r == s[|s| - |r|..]
    ensures forall i :: 0 <= i < |s| - |r| ==> IsWhitespace(s[i])
    ensures r == [] || !IsWhitespace(r[0])
  {
    if s != [] && IsWhitespace(s[0]) then TrimStart(s[1..]) else s
  }

  /** Drops trailing white space: the result is the prefix of `s` that ends at its last non-blank. */
  function TrimEnd(s: string): (r: string)
    ensures |r| <= |s| && r == s[..|r|]
    ensures forall i :: |r| <= i < |s| ==> IsWhitespace(s[i])
    ensures r == [] || !IsWhitespace(r[|r| - 1])
  {
    if s != [] && IsWhitespace(s[|s| - 1]) then TrimEnd(s[..|s| - 1]) else s
  }

  /** `r` is the infix of `s` starting at `k`, and everything of `s` outside it is blank. */
  predicate InfixWithBlankEnds(s: string, r: string, k: int) {
    0 <= k && k + |r| <= |s| && r == s[k..k + |r|]
    && (forall i :: 0 <= i < k ==> IsWhitespace(s[i]))
    && (forall i :: k + |r| <= i < |s| ==> IsWhitespace(s[i]))
  }

  /**
   * The title's `trim: true` setter: the result is the infix of `s` that remains once the blanks
   * on both ends are gone, so it neither starts nor ends with a blank.
   */
  function Trim(s: string): (r: string)
    ensures NoOuterBlanks(r)
    ensures exists k :: InfixWithBlankEnds(s, r, k)
  {
    TrimEndOfTrimStart(s);
    TrimEnd(TrimStart(s))
  }

  lemma TrimEndOfTrimStart(s: string)
    ensures InfixWithBlankEnds(s, TrimEnd(TrimStart(s)), |s| - |TrimStart(s)|)
  {
    BlankSuffixThenBlankPrefix(s, TrimStart(s), TrimEnd(TrimStart(s)));
  }

  /** Dropping blanks from the front of `s` to get `t`, then from the back of `t` to get `r`. */
  lemma BlankSuffixThenBlankPrefix(s: string, t: string, r: string)
    requires |t| <= |s| && t == s[|s| - |t|..]
    requires forall i :: 0 <= i < |s| - |t| ==> IsWhitespace(s[i])
    requires |r| <= |t| && r == t[..|r|]
    requires forall i :: |r| <= i < |t| ==> IsWhitespace(t[i])
    ensures InfixWithBlankEnds(s, r, |s| - |t|)
  {
    var k := |s| - |t|;
    assert r == s[k..k + |r|];
    forall i | k + |r| <= i < |s|
      ensures IsWhitespace(s[i])
    {
      assert s[i] == t[i - k];
    }
  }

  /** Neither the first nor the last character is blank. */
  predicate NoOuterBlanks(s: string) {
    s == [] || (!IsWhitespace(s[0]) && !IsWhitespace(s[|s| - 1]))
  }

  /** A string that neither starts nor ends with a blank is its own trim. */
  lemma {:induction false} TrimFixesTrimmed(s: string)
    requires NoOuterBlanks(s)
    ensures Trim(s) == s
  {
    assert TrimStart(s) == s;
    assert TrimEnd(s) == s;
  }

  /** Trimming twice is trimming once. */
  lemma TrimIdempotent(s: string)
    ensures Trim(Trim(s)) == Trim(s)
  {
    TrimFixesTrimmed(Trim(s));
  }

  /** A string that is blank from end to end trims to the empty string, and only such a string does. */
  lemma TrimEmptyIffBlank(s: string)
    ensures Trim(s) == [] <==> forall i :: 0 <= i < |s| ==> IsWhitespace(s[i])
  {
    var r := Trim(s);
    var k :| InfixWithBlankEnds(s, r, k);
    if r != [] {
      assert !IsWhitespace(s[k]);
    }
  }

  // ---------------------------------------------------------------- documents and validation

  /** A document before it is saved: any path may still be unset. */
  datatype Document = Document(title: Option<string>, author: Option<string>, genre: Option<string>,
                               description: Option<string>, price: Option<int>)

  /** `new Book({...})`: each path takes the given value, the title through its trimming setter. */
  function NewDocument(title: Option<string>, author: Option<string>, genre: Option<string>,
                       description: Option<string>, price: Option<int>): (d: Document)
    ensures d.title.Some? <==> title.Some?
    ensures title.Some? ==> NoOuterBlanks(d.title.value) && exists k :: InfixWithBlankEnds(title.value, d.title.value, k)
    ensures d.author == author && d.genre == genre && d.description == description && d.price == price
  {
    Document(if title.Some? then Some(Trim(title.value)) else None, author, genre, description, price)
  }

  /** The `required` rule of one path: a string path needs a non-empty string, the price any number. */
  predicate Present(d: Document, f: Field) {
    match f
    case Title => d.title.Some? && d.title.value != ""
    case Author => d.author.Some? && d.author.value != ""
    case Genre => d.genre.Some? && d.genre.value != ""
    case Description => d.description.Some? && d.description.value != ""
    case Price => d.price.Some?
  }

  /** The paths of `fs` whose required rule `d` breaks, in the order of `fs`. */
  function MissingAmong(d: Document, fs: seq<Field>): (m: seq<Field>)
    ensures forall f :: f in m <==> f in fs && !Present(d, f)
  {
    if fs == [] then []
    else (if Present(d, fs[0]) then [] else [fs[0]]) + MissingAmong(d, fs[1..])
  }

  function MissingPaths(d: Document): seq<Field> {
    MissingAmong(d, SchemaOrder)
  }

  /** "path: message" for each failing path, separated by ", ". */
  function JoinErrors(m: seq<Field>): string {
    if m == [] then ""
    else if |m| == 1 then PathName(m[0]) + ": " + RequiredMessage(m[0])
    else PathName(m[0]) + ": " + RequiredMessage(m[0]) + ", " + JoinErrors(m[1..])
  }

  /** The message of the ValidationError a failed save raises. */
  function ValidationMessage(m: seq<Field>): string {
    "Book validation failed: " + JoinErrors(m)
  }

  datatype SchemaResult = Accepted(book: Book) | Rejected(message: string)

  /**
   * Save-time validation: the document is accepted exactly when every path meets its required
   * rule, and then it is saved with the values it holds; otherwise the save is rejected with
   * every failing path listed. No rule bounds the price: any number is accepted.
   */
  function Validate(d: Document): (r: SchemaResult)
    ensures r.Accepted? <==> forall f :: Present(d, f)
    ensures r.Accepted? ==> && d.title.Some? && d.author.Some? && d.genre.Some?
                            && d.description.Some? && d.price.Some?
                            && r.book == Book(d.title.value, d.author.value, d.genre.value,
                                              d.description.value, d.price.value)
    ensures r.Rejected? ==> MissingPaths(d) != [] && r.message == ValidationMessage(MissingPaths(d))
  {
    var m := MissingPaths(d);
    if m == [] then
      assert forall f :: Present(d, f) by {
        forall f ensures Present(d, f) {
          SchemaOrderListsEveryField(f);
        }
      }
      assert Present(d, Title) && Present(d, Author) && Present(d, Genre);
      assert Present(d, Description) && Present(d, Price);
      Accepted(Book(d.title.value, d.author.value, d.genre.value, d.description.value, d.price.value))
    else
      assert m[0] in m && !Present(d, m[0]);
      Rejected(ValidationMessage(m))
  }

  /** A path that breaks its required rule makes the save fail and is named in the message's list. */
  lemma MissingPathReported(d: Document, f: Field)
    requires !Present(d, f)
    ensures Validate(d).Rejected? && f in MissingPaths(d)
  {
    SchemaOrderListsEveryField(f);
  }

  /** When the title is the only failing path, the message names it alone. */
  lemma BlankTitleMessage(d: Document)
    requires !Present(d, Title)
    requires Present(d, Author) && Present(d, Genre) && Present(d, Description) && Present(d, Price)
    ensures Validate(d) == Rejected(ValidationMessage([Title]))
    ensures ValidationMessage([Title]) == "Book validation failed: " + "title" + ": " + "Please add a book title"
  {
    OnlyTitleMissing(d);
  }

  lemma OnlyTitleMissing(d: Document)
    requires !Present(d, Title)
    requires Present(d, Author) && Present(d, Genre) && Present(d, Description) && Present(d, Price)
    ensures MissingPaths(d) == [Title]
  {
    assert SchemaOrder[1..] == [Author, Genre, Description, Price];
    assert MissingAmong(d, [Price]) == [];
    assert MissingAmong(d, [Description, Price]) == [];
    assert MissingAmong(d, [Genre, Description, Price]) == [];
    assert MissingAmong(d, SchemaOrder[1..]) == [];
  }

  /** What every saved book satisfies: a trimmed non-empty title and non-empty author, genre and description. */
  predicate WellFormed(b: Book) {
    NoOuterBlanks(b.title) && b.title != "" && b.author != "" && b.genre != "" && b.description != ""
  }

  /**
   * Saving a document built from five given values, with non-empty author, genre and description:
   * it fails with the title message exactly when the title trims to nothing; otherwise it is saved
   * as a well-formed book with the title trimmed and the other values as given.
   */
  lemma SaveNewBook(title: string, author: string, genre: string, description: string, price: int)
    requires author != "" && genre != "" && description != ""
    ensures var r := Validate(NewDocument(Some(title), Some(author), Some(genre), Some(description), Some(price)));
      if Trim(title) == "" then r == Rejected(ValidationMessage([Title]))
      else r == Accepted(Book(Trim(title), author, genre, description, price)) && WellFormed(r.book)
  {
    var d := NewDocument(Some(title), Some(author), Some(genre), Some(description), Some(price));
    assert Present(d, Author) && Present(d, Genre) && Present(d, Description) && Present(d, Price);
    if Trim(title) == "" {
      OnlyTitleMissing(d);
    } else {
      forall f
        ensures Present(d, f)
      {
        match f
        case Title =>
        case Author =>
        case Genre =>
        case Description =>
        case Price =>
      }
    }
  }

  /** A document built through the schema, once accepted, is a well-formed book. */
  lemma AcceptedNewDocumentWellFormed(title: Option<string>, author: Option<string>, genre: Option<string>,
                                      description: Option<string>, price: Option<int>)
    requires Validate(NewDocument(title, author, genre, description, price)).Accepted?
    ensures WellFormed(Validate(NewDocument(title, author, genre, description, price)).book)
  {
    var d := NewDocument(title, author, genre, description, price);
    assert Present(d, Title) && Present(d, Author) && Present(d, Genre) && Present(d, Description);
  }
}
