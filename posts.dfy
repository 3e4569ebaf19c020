/** The data the blog API works on: a post record, the JSON request body, the
    HTTP status codes the handlers answer with, and the named fields of a post. */
module Posts {

  datatype Option<T> = None | Some(value: T)

  function GetOr<T>(o: Option<T>, default: T): T {
    match o
    case Some(v) => v
    case None => default
  }

  /** One blog post as it is stored in the JSON file. */
  datatype Post = Post(id: int, title: string, content: string, author: string, date: string)

  /** A JSON object sent as a request body, restricted to string values. */
  type Body = map<string, string>

  /** The statuses the handlers answer with: 200, 201, 400, 404, 405, and the
      500 the framework sends when a handler raises. */
  datatype Status = Ok | Created | BadRequest | NotFound | MethodNotAllowed | InternalServerError

  /** The keys of a post record. */
  datatype Field = Id | Title | Content | Author | Date

  function FieldName(f: Field): string {
    match f
    case Id => "id"
    case Title => "title"
    case Content => "content"
    case Author => "author"
    case Date => "date"
  }

  /** Looks a key name up among the keys of a post; None stands for the KeyError
      that indexing a post with any other name raises. */
  function ParseField(name: string): (r: Option<Field>)
    ensures forall f :: r == Some(f) <==> FieldName(f) == name
  {
    if name == "id" then Some(Id)
    else if name == "title" then Some(Title)
    else if name == "content" then Some(Content)
    else if name == "author" then Some(Author)
    else if name == "date" then Some(Date)
    else None
  }

  /** The value stored under a key: the id is a number, the rest are strings. */
  datatype Key = Num(n: int) | Str(s: string)

  function KeyOf(p: Post, f: Field): Key {
    match f
    case Id => Num(p.id)
    case Title => Str(p.title)
    case Content => Str(p.content)
    case Author => Str(p.author)
    case Date => Str(p.date)
  }

  /** The text under one of the string-valued keys. */
  function TextOf(p: Post, f: Field): (r: string)
    requires f != Id
    ensures KeyOf(p, f) == Str(r)
  {
    match f
    case Title => p.title
    case Content => p.content
    case Author => p.author
    case Date => p.date
  }
}
