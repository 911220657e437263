/**
 * The flow: create the table, fetch, normalise, store, in that order.
 */
module Flow {
  import opened Values
  import opened Normalize
  import opened Store

  /** The table after one run of the flow: nothing happens after `create_table`
      raises; otherwise the normalised fetch result is stored. */
  function FlowRows(hasTable: bool, rows: seq<Post>, response: Response,
                    createFault: DbFault, storeFault: DbFault): (r: seq<Post>)
    ensures createFault == ConnectError ==> r == rows
    ensures r == rows || r == rows + ValidPosts(Parsed(GetPostData(response)))
  {
    if createFault == ConnectError then rows
    else Stored(hasTable || createFault == NoFault, rows, Parsed(GetPostData(response)), storeFault)
  }

  /** `my_etl_flow`: the four stages in sequence on one database. */
  method MyEtlFlow(db: Database, response: Response, createFault: DbFault, storeFault: DbFault)
    returns (outcome: Outcome)
    requires db.Valid()
    modifies db
    ensures db.Valid()
    ensures db.rows == FlowRows(old(db.tableExists), old(db.rows), response, createFault, storeFault)
    ensures db.tableExists == (old(db.tableExists) || createFault == NoFault)
    ensures outcome == Raised <==>
      createFault == ConnectError || (GetPostData(response) != [] && storeFault == ConnectError)
  {
    outcome := db.CreateTable(createFault);
    if outcome == Raised {
      return;
    }
    var raw := GetPostData(response);
    var parsed := ParsePostData(raw);
    outcome := db.StorePosts(parsed, storeFault);
  }

  /** With the fallback dataset and no storage fault, one run on a fresh
      database stores both fallback posts. */
  lemma FallbackRunStoresTwo()
    ensures FlowRows(false, [], RequestFailed, NoFault, NoFault) == Parsed(SimulateData())
    ensures |FlowRows(false, [], RequestFailed, NoFault, NoFault)| == 2
  {
    ParsedFallback();
    ValidPostsOfValid(Parsed(SimulateData()));
  }

  /** Running the flow twice on the fallback dataset leaves four rows, each
      fallback post twice: the table is append-only and never deduplicated. */
  lemma FallbackTwiceFourRows()
    ensures var once := FlowRows(false, [], RequestFailed, NoFault, NoFault);
      var twice := FlowRows(true, once, RequestFailed, NoFault, NoFault);
      twice == Parsed(SimulateData()) + Parsed(SimulateData()) && |twice| == 4
  {
    FallbackRunStoresTwo();
  }

  /** Whatever the API returns, a run never stores an invalid tuple and never
      changes a row that was already there. */
  lemma FlowOnlyAppendsValid(hasTable: bool, rows: seq<Post>, response: Response,
                             createFault: DbFault, storeFault: DbFault)
    ensures var r := FlowRows(hasTable, rows, response, createFault, storeFault);
      |rows| <= |r| && r[..|rows|] == rows && forall k :: |rows| <= k < |r| ==> ValidatePost(r[k])
  {
    StoredExtendsWithValid(hasTable || createFault == NoFault, rows, Parsed(GetPostData(response)), storeFault);
  }

  /** The records whose present fields are well typed, in order. */
  function WellTypedRecords(raw: seq<RawRecord>): (kept: seq<RawRecord>) {
    if raw == [] then []
    else (if WellTypedRecord(raw[0]) then [raw[0]] else []) + WellTypedRecords(raw[1..])
  }

  /** Normalising and then filtering keeps exactly the normalisations of the
      well-typed records, in their original order: the validator drops a tuple
      only because of a value the API sent, never because of a default. */
  lemma {:induction false} ValidPostsOfParsed(raw: seq<RawRecord>)
    ensures ValidPosts(Parsed(raw)) == Parsed(WellTypedRecords(raw))
  {
    if raw != [] {
      var head := NormalizeRecord(raw[0]);
      assert Parsed(raw) == [head] + Parsed(raw[1..]);
      ValidPostsAppend([head], Parsed(raw[1..]));
      assert ValidPosts([head]) == ValidPosts([]) + (if ValidatePost(head) then [head] else []);
      NormalizeValidIffWellTyped(raw[0]);
      ValidPostsOfParsed(raw[1..]);
      ParsedAppend(if WellTypedRecord(raw[0]) then [raw[0]] else [], WellTypedRecords(raw[1..]));
    }
  }
}
