/** The `Book` entity and its construction-time guard (domain/book/Book.kt). */
module Books {
  import opened Wrappers

  /** The category of a book; the model only compares categories for equality. */
  type BookType(==)

  /** The message of the exception thrown for a blank name. */
  const BlankNameMessage: string := "이름은 비어 있을 수 없습니다"

  /**
   * Kotlin's `Char.isWhitespace` on the JVM: Java's whitespace characters
   * (tab, line feed, vertical tab, form feed, carriage return, the four
   * information separators U+001C..U+001F) together with every Unicode space,
   * line and paragraph separator, as in the JDK 9 and later tables.
   */
  predicate IsWhitespace(c: char) {
    var n := c as int;
    (0x09 <= n <= 0x0D) || (0x1C <= n <= 0x20) || n == 0xA0 || n == 0x1680
    || (0x2000 <= n <= 0x200A) || n == 0x2028 || n == 0x2029 || n == 0x202F
    || n == 0x205F || n == 0x3000
  }

  /** Kotlin's `CharSequence.isBlank`: empty, or made only of whitespace. */
  predicate IsBlank(s: string) {
    forall i :: 0 <= i < |s| ==> IsWhitespace(s[i])
  }

  /** Kotlin's `trimStart()`: drops the leading whitespace. */
  function TrimStart(s: string): (r: string)
    ensures |r| <= |s| && r == s[|s| - |r|..]
    ensures forall i :: 0 <= i < |s| - |r| ==> IsWhitespace(s[i])
    ensures r != [] ==> !IsWhitespace(r[0])
  {
    if s == [] then s
    else if IsWhitespace(s[0]) then TrimStart(s[1..])
    else s
  }

  /** A name is blank exactly when trimming its leading whitespace leaves nothing. */
  lemma BlankIffTrimsToEmpty(s: string)
    ensures IsBlank(s) <==> TrimStart(s) == []
  {
  }

  /**
   * A book as the catalog holds it. `name` and `bookType` are `val`s, so a
   * value of this datatype never changes; `id` is `None` until the book is
   * persisted.
   */
  datatype Book = Book(name: string, bookType: BookType, id: Option<nat>)

  /** The invariant every constructed book satisfies. */
  predicate ValidBook(b: Book) {
    !IsBlank(b.name)
  }

  /**
   * The `Book` constructor with its `init` guard: a blank name raises
   * IllegalArgumentException and no book is produced; otherwise the book
   * holds the given fields unchanged. `id` defaults to `None` (null).
   */
  function NewBook(name: string, bookType: BookType, id: Option<nat> := None): (r: Result<Book>)
    ensures r.Ok? <==> !IsBlank(name)
    ensures r.Ok? ==> r.value.name == name && r.value.bookType == bookType && r.value.id == id
    ensures r.Ok? ==> ValidBook(r.value)
    ensures r.Err? ==> r.error == IllegalArgument(Some(BlankNameMessage))
  {
    if IsBlank(name) then Err(IllegalArgument(Some(BlankNameMessage)))
    else Ok(Book(name, bookType, id))
  }

  /** The empty name is blank, so a book named "" cannot be constructed. */
  lemma EmptyNameRejected(bookType: BookType)
    ensures NewBook("", bookType) == Err(IllegalArgument(Some(BlankNameMessage)))
  {
  }

  /**
   * A name whose leading whitespace is all there is (by BlankIffTrimsToEmpty,
   * a name made only of whitespace characters) is rejected.
   */
  lemma {:induction false} WhitespaceNameRejected(name: string, bookType: BookType)
    requires TrimStart(name) == []
    ensures NewBook(name, bookType).Err?
  {
    BlankIffTrimsToEmpty(name);
  }

  /**
   * A name with a non-whitespace character yields a book holding that name
   * unchanged, the given type and, when no id is supplied, no id.
   */
  lemma NonBlankNameAccepted(name: string, bookType: BookType, k: nat)
    requires k < |name| && !IsWhitespace(name[k])
    ensures NewBook(name, bookType) == Ok(Book(name, bookType, None))
  {
  }
}
