/** The backend's application error (src-tauri/src/error.rs): three variants,
    each displayed with a fixed prefix, and serialised to the frontend as
    exactly that display text. */
module AppErrors {
  import opened Wrappers

  /** `Io` and `Sqlx` wrap a library error; the model keeps the display text
      of the wrapped error, which is all the prefix format uses. */
  datatype AppError =
    | Io(ioText: string)
    | Sqlx(sqlxText: string)
    | Custom(message: string)

  /** `AppResult<T>`, the backend's `Result<T, AppError>`. */
  datatype AppResult<+T> = Ok(value: T) | Err(error: AppError)

  const IoPrefix: string := "IO Error: "
  const SqlxPrefix: string := "SQLX Error: "
  const CustomPrefix: string := "Error: "

  /** The display text of `sqlx::Error::RowNotFound`, what `fetch_one`
      fails with when no row matches. */
  const RowNotFound: string := "no rows returned by a query that expected to return at least one row"

  /** The `#[error(...)]` display format of each variant. */
  function Display(e: AppError): string
  {
    match e
    case Io(t) => IoPrefix + t
    case Sqlx(t) => SqlxPrefix + t
    case Custom(m) => CustomPrefix + m
  }

  /** Recovers an error from its display text: the three prefixes begin
      with different letters, so at most one of them matches. */
  function ParseDisplay(s: string): Option<AppError>
  {
    if IoPrefix <= s then Some(Io(s[|IoPrefix|..]))
    else if SqlxPrefix <= s then Some(Sqlx(s[|SqlxPrefix|..]))
    else if CustomPrefix <= s then Some(Custom(s[|CustomPrefix|..]))
    else None
  }

  /** `AppError::new(message)`: a failed result whose display is
      "Error: " followed by the message, unchanged. */
  function New<T>(message: string): (r: AppResult<T>)
    ensures r == Err(Custom(message))
    ensures Display(r.error) == CustomPrefix + message
    ensures ParseDisplay(Display(r.error)) == Some(Custom(message))
  {
    DisplayRoundTrip(Custom(message));
    Err(Custom(message))
  }

  /** The display text names the variant and carries the message: parsing
      it back gives the same error. */
  lemma DisplayRoundTrip(e: AppError)
    ensures ParseDisplay(Display(e)) == Some(e)
  {
    var s := Display(e);
    match e
    case Io(t) =>
      assert s[..|IoPrefix|] == IoPrefix;
    case Sqlx(t) =>
      assert s[0] == 'S';
      assert !(IoPrefix <= s) by { assert IoPrefix[0] == 'I'; }
      assert s[..|SqlxPrefix|] == SqlxPrefix;
    case Custom(m) =>
      assert s[0] == 'E';
      assert !(IoPrefix <= s) by { assert IoPrefix[0] == 'I'; }
      assert !(SqlxPrefix <= s) by { assert SqlxPrefix[0] == 'S'; }
      assert s[..|CustomPrefix|] == CustomPrefix;
  }

  /** Two different errors never display alike. */
  lemma DisplayInjective(a: AppError, b: AppError)
    ensures Display(a) == Display(b) ==> a == b
  {
    DisplayRoundTrip(a);
    DisplayRoundTrip(b);
  }

  /** `impl Serialize for AppError`: the error crosses to the frontend as
      a single string, its display text, from which the error is
      recoverable. */
  function Serialize(e: AppError): (s: string)
    ensures s == Display(e)
    ensures ParseDisplay(s) == Some(e)
  {
    DisplayRoundTrip(e);
    Display(e)
  }
}
