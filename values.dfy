/**
 * Values of the ETL pipeline: the JSON values a fetched post record may carry,
 * the normalised 4-tuple, and the type check that decides which tuples are stored.
 */
module Values {

  /** A JSON value as the HTTP client decodes it. `Other` stands for every value
      the pipeline never inspects (floats, arrays, objects), kept by its text.
      Strings are sequences of Unicode scalar values. */
  datatype Value =
    | IntV(i: int)
    | BoolV(b: bool)
    | StrV(s: string)
    | NullV
    | Other(repr: string)

  /** A raw record: one decoded JSON object, keys optional. */
  type RawRecord = map<string, Value>

  /** The normalised tuple (user_id, post_id, title, body). */
  datatype Post = Post(userId: Value, id: Value, title: Value, body: Value)

  /** Python's `isinstance(v, int)`: `bool` is a subclass of `int`, so booleans pass. */
  predicate IsInt(v: Value) {
    v.IntV? || v.BoolV?
  }

  /** Python's `isinstance(v, str)`. */
  predicate IsStr(v: Value) {
    v.StrV?
  }

  /** The type check applied to a normalised tuple before it is stored: ints
      (booleans included) for both ids, strings for title and body. A null, a
      string or any other JSON value in an id position, or a non-string title
      or body, is rejected. */
  predicate ValidatePost(p: Post)
    ensures ValidatePost(p) ==> p.title.StrV? && p.body.StrV?
    ensures ValidatePost(p) ==> !p.userId.StrV? && !p.userId.NullV? && !p.userId.Other?
    ensures ValidatePost(p) ==> !p.id.StrV? && !p.id.NullV? && !p.id.Other?
    ensures ((p.userId.IntV? || p.userId.BoolV?) && (p.id.IntV? || p.id.BoolV?)
             && p.title.StrV? && p.body.StrV?) ==> ValidatePost(p)
  {
    IsInt(p.userId) && IsInt(p.id) && IsStr(p.title) && IsStr(p.body)
  }

  /** The type check on concrete tuples: well-typed tuples pass, a string id or a
      numeric title fails, and a boolean id passes as Python's int check lets it. */
  lemma ValidatePostCases()
    ensures ValidatePost(Post(IntV(1), IntV(1), StrV("t"), StrV("b")))
    ensures !ValidatePost(Post(StrV("1"), IntV(1), StrV("t"), StrV("b")))
    ensures !ValidatePost(Post(IntV(1), IntV(1), IntV(5), StrV("b")))
    ensures !ValidatePost(Post(IntV(1), NullV, StrV("t"), StrV("b")))
    ensures ValidatePost(Post(BoolV(true), IntV(1), StrV("t"), StrV("b")))
  {
  }
}
