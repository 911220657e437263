/**
 * The fetch stage's fallback dataset and the normaliser that turns raw records
 * into (user_id, post_id, title, body) tuples.
 */
module Normalize {
  import opened Values

  const DefaultUserId: Value := IntV(0)
  const DefaultId: Value := IntV(0)
  const DefaultTitle: Value := StrV("Sin título")
  const DefaultBody: Value := StrV("Sin contenido")

  /** Python's `dict.get(key, default)`. */
  function Get(row: RawRecord, key: string, default: Value): (v: Value)
    ensures key in row ==> v == row[key]
    ensures key !in row ==> v == default
    ensures v in row.Values || v == default
  {
    if key in row then row[key] else default
  }

  /** Every one of the four keys that is present carries a value of the type the
      validator expects; absent keys are allowed. */
  predicate WellTypedRecord(row: RawRecord) {
    && ("userId" in row ==> IsInt(row["userId"]))
    && ("id" in row ==> IsInt(row["id"]))
    && ("title" in row ==> IsStr(row["title"]))
    && ("body" in row ==> IsStr(row["body"]))
  }

  /** One record becomes one tuple; present fields are copied without coercion. */
  function NormalizeRecord(row: RawRecord): (p: Post)
    ensures {"userId", "id", "title", "body"} <= row.Keys ==>
      p == Post(row["userId"], row["id"], row["title"], row["body"])
    ensures row.Keys !! {"userId", "id", "title", "body"} ==>
      p == Post(IntV(0), IntV(0), StrV("Sin título"), StrV("Sin contenido"))
  {
    Post(Get(row, "userId", DefaultUserId),
         Get(row, "id", DefaultId),
         Get(row, "title", DefaultTitle),
         Get(row, "body", DefaultBody))
  }

  /** A present key's value lands unchanged in its tuple position; a missing key
      gets its default (0, 0, 'Sin título', 'Sin contenido'). */
  lemma NormalizeRecordFields(row: RawRecord)
    ensures NormalizeRecord(row).userId == (if "userId" in row then row["userId"] else IntV(0))
    ensures NormalizeRecord(row).id == (if "id" in row then row["id"] else IntV(0))
    ensures NormalizeRecord(row).title == (if "title" in row then row["title"] else StrV("Sin título"))
    ensures NormalizeRecord(row).body == (if "body" in row then row["body"] else StrV("Sin contenido"))
  {
  }

  /** The defaults are well typed, so a normalised record passes the validator
      exactly when the fields it does carry are well typed. In particular a
      record with all four keys missing always passes. */
  lemma NormalizeValidIffWellTyped(row: RawRecord)
    ensures ValidatePost(NormalizeRecord(row)) <==> WellTypedRecord(row)
    ensures row.Keys !! {"userId", "id", "title", "body"} ==> ValidatePost(NormalizeRecord(row))
  {
  }

  /** Specification of `parse_post_data`: the records normalised one by one, in order. */
  function Parsed(raw: seq<RawRecord>): (posts: seq<Post>)
    ensures |posts| == |raw|
  {
    if raw == [] then [] else [NormalizeRecord(raw[0])] + Parsed(raw[1..])
  }

  /** The i-th output tuple is the normalisation of the i-th input record. */
  lemma {:induction false} ParsedAt(raw: seq<RawRecord>, i: nat)
    requires i < |raw|
    ensures Parsed(raw)[i] == NormalizeRecord(raw[i])
  {
    if i > 0 {
      ParsedAt(raw[1..], i - 1);
    }
  }

  /** Normalising a concatenation normalises each part. */
  lemma {:induction false} ParsedAppend(a: seq<RawRecord>, b: seq<RawRecord>)
    ensures Parsed(a + b) == Parsed(a) + Parsed(b)
  {
    if a != [] {
      assert (a + b)[1..] == a[1..] + b;
      ParsedAppend(a[1..], b);
    } else {
      assert a + b == b;
    }
  }

  /** `parse_post_data`: a loop that appends one tuple per raw record. */
  method ParsePostData(raw: seq<RawRecord>) returns (posts: seq<Post>)
    ensures |posts| == |raw|
    ensures forall i :: 0 <= i < |raw| ==> posts[i] == NormalizeRecord(raw[i])
    ensures posts == Parsed(raw)
  {
    posts := [];
    for i := 0 to |raw|
      invariant |posts| == i
      invariant forall k :: 0 <= k < i ==> posts[k] == NormalizeRecord(raw[k])
    {
      posts := posts + [NormalizeRecord(raw[i])];
    }
    forall i | 0 <= i < |raw|
      ensures posts[i] == Parsed(raw)[i]
    {
      ParsedAt(raw, i);
    }
  }

  /** `simulate_data`: the fixed two-record dataset used when the fetch fails. */
  function SimulateData(): (records: seq<RawRecord>)
    ensures |records| == 2
    ensures forall r :: r in records ==> r.Keys == {"userId", "id", "title", "body"} && WellTypedRecord(r)
    ensures records[0]["userId"] == IntV(1) && records[0]["id"] == IntV(1)
    ensures records[1]["userId"] == IntV(2) && records[1]["id"] == IntV(2)
    ensures records[0]["title"] == StrV("Título post 1")
    ensures records[1]["title"] == StrV("Título post 2")
  {
    [ map["userId" := IntV(1), "id" := IntV(1), "title" := StrV("Título post 1"), "body" := StrV("Contenido post 1")],
      map["userId" := IntV(2), "id" := IntV(2), "title" := StrV("Título post 2"), "body" := StrV("Contenido post 2")] ]
  }

  /** What the HTTP request produced: decoded records, or a request exception
      (transport failure, non-2xx status, undecodable body). */
  datatype Response = Received(records: seq<RawRecord>) | RequestFailed

  /** `get_post_data`: never fails; a failed request yields the fallback dataset. */
  function GetPostData(response: Response): (raw: seq<RawRecord>)
    ensures response.Received? ==> raw == response.records
    ensures response.RequestFailed? ==> raw == SimulateData()
    ensures response.RequestFailed? ==> |raw| == 2 && forall r :: r in raw ==> WellTypedRecord(r)
  {
    match response
    case Received(records) => records
    case RequestFailed => SimulateData()
  }

  /** The fallback dataset normalises to two well-typed tuples, field for field. */
  lemma ParsedFallback()
    ensures Parsed(SimulateData()) ==
      [ Post(IntV(1), IntV(1), StrV("Título post 1"), StrV("Contenido post 1")),
        Post(IntV(2), IntV(2), StrV("Título post 2"), StrV("Contenido post 2")) ]
    ensures forall p :: p in Parsed(SimulateData()) ==> ValidatePost(p)
  {
    var d := SimulateData();
    ParsedAt(d, 0);
    ParsedAt(d, 1);
  }
}
