/**
 * The store stage: the validator used as a filter, and the `post` table that
 * valid tuples are appended to inside one scoped database connection.
 */
module Store {
  import opened Values

  /** The list comprehension that keeps the tuples passing `validate_post`. */
  function ValidPosts(s: seq<Post>): (r: seq<Post>)
    ensures |r| <= |s|
    ensures forall k :: 0 <= k < |r| ==> ValidatePost(r[k])
  {
    if s == [] then []
    else ValidPosts(s[..|s| - 1]) + (if ValidatePost(s[|s| - 1]) then [s[|s| - 1]] else [])
  }

  /** The positions of the valid tuples, in increasing order. */
  function ValidIndices(s: seq<Post>): (idx: seq<nat>)
    ensures forall k :: 0 <= k < |idx| ==> idx[k] < |s| && ValidatePost(s[idx[k]])
    ensures forall k, l :: 0 <= k < l < |idx| ==> idx[k] < idx[l]
    ensures forall i :: 0 <= i < |s| && ValidatePost(s[i]) ==> i in idx
  {
    if s == [] then []
    else
      var init := s[..|s| - 1];
      assert forall i :: 0 <= i < |init| ==> init[i] == s[i];
      ValidIndices(init) + (if ValidatePost(s[|s| - 1]) then [|s| - 1] else [])
  }

  /** The filtered list is exactly the subsequence of the input at the valid
      positions: same order, same multiplicity, nothing else. */
  lemma {:induction false} ValidPostsSelects(s: seq<Post>)
    ensures |ValidPosts(s)| == |ValidIndices(s)|
    ensures forall k :: 0 <= k < |ValidIndices(s)| ==> ValidPosts(s)[k] == s[ValidIndices(s)[k]]
  {
    if s != [] {
      var init := s[..|s| - 1];
      ValidPostsSelects(init);
      var last := if ValidatePost(s[|s| - 1]) then [s[|s| - 1]] else [];
      var lastIdx: seq<nat> := if ValidatePost(s[|s| - 1]) then [|s| - 1] else [];
      assert ValidPosts(s) == ValidPosts(init) + last;
      assert ValidIndices(s) == ValidIndices(init) + lastIdx;
      forall k | 0 <= k < |ValidIndices(s)|
        ensures ValidPosts(s)[k] == s[ValidIndices(s)[k]]
      {
        if k < |ValidIndices(init)| {
          assert ValidPosts(s)[k] == ValidPosts(init)[k];
          assert ValidIndices(s)[k] == ValidIndices(init)[k];
          assert init[ValidIndices(init)[k]] == s[ValidIndices(init)[k]];
        }
      }
    }
  }

  /** A tuple is in the filtered list exactly when it is a valid tuple of the
      input: no invalid tuple is kept and no valid one is lost. */
  lemma ValidPostsMembers(s: seq<Post>, p: Post)
    ensures p in ValidPosts(s) <==> p in s && ValidatePost(p)
  {
    ValidPostsSelects(s);
    var r, idx := ValidPosts(s), ValidIndices(s);
    if p in r {
      var k :| 0 <= k < |r| && r[k] == p;
      assert s[idx[k]] == p;
    }
    if p in s && ValidatePost(p) {
      var i :| 0 <= i < |s| && s[i] == p;
      var k :| 0 <= k < |idx| && idx[k] == i;
      assert r[k] == p;
    }
  }

  /** Filtering a concatenation filters each part, so the filter keeps the
      relative order of the tuples it keeps. */
  lemma {:induction false} ValidPostsAppend(a: seq<Post>, b: seq<Post>)
    ensures ValidPosts(a + b) == ValidPosts(a) + ValidPosts(b)
  {
    if b == [] {
      assert a + b == a;
    } else {
      var init := b[..|b| - 1];
      assert (a + b)[..|a + b| - 1] == a + init;
      ValidPostsAppend(a, init);
    }
  }

  /** A list that is already all valid passes through the filter unchanged,
      so filtering twice is filtering once. */
  lemma {:induction false} ValidPostsOfValid(s: seq<Post>)
    requires forall i :: 0 <= i < |s| ==> ValidatePost(s[i])
    ensures ValidPosts(s) == s
  {
    if s != [] {
      var init := s[..|s| - 1];
      forall i | 0 <= i < |init|
        ensures ValidatePost(init[i])
      {
        assert init[i] == s[i];
      }
      ValidPostsOfValid(init);
      assert ValidPosts(s) == init + [s[|s| - 1]];
      assert init + [s[|s| - 1]] == s;
    }
  }

  /** sqlite3 binds a Python int (and a bool, as 0 or 1) to a signed 64-bit
      INTEGER and raises OverflowError for any int outside that range. */
  predicate FitsSqliteInteger(v: Value) {
    v.IntV? ==> -0x8000_0000_0000_0000 <= v.i <= 0x7FFF_FFFF_FFFF_FFFF
  }

  /** The tuple's parameters can all be bound to the INSERT statement. */
  predicate Bindable(p: Post) {
    FitsSqliteInteger(p.userId) && FitsSqliteInteger(p.id)
  }

  /** A fault of the storage layer during one connection scope. `ConnectError`
      happens before the guarded block and propagates; `ExecuteError` happens
      inside it (locked file, disk I/O error, ...) and is swallowed. */
  datatype DbFault = NoFault | ConnectError | ExecuteError

  /** How a stage ended: normally, or with an exception reaching its caller. */
  datatype Outcome = Returned | Raised

  /** The table after one `store_posts` call on a table in state (hasTable, rows).
      The insert is all or nothing: either the table is unchanged or every kept
      tuple is appended after the existing rows. */
  function Stored(hasTable: bool, rows: seq<Post>, parsed: seq<Post>, fault: DbFault): (r: seq<Post>)
    ensures r == rows || r == rows + ValidPosts(parsed)
    ensures |rows| <= |r| && r[..|rows|] == rows
  {
    var filtered := ValidPosts(parsed);
    if parsed == [] || fault != NoFault || !hasTable || exists p :: p in filtered && !Bindable(p)
    then rows
    else rows + filtered
  }

  /** The table only ever grows by valid tuples: old rows stay as they were,
      in place, and every new row passes the validator. */
  lemma StoredExtendsWithValid(hasTable: bool, rows: seq<Post>, parsed: seq<Post>, fault: DbFault)
    ensures var r := Stored(hasTable, rows, parsed, fault);
      |rows| <= |r| && r[..|rows|] == rows && forall k :: |rows| <= k < |r| ==> ValidatePost(r[k])
  {
  }

  /** An empty input, a faulty connection, a missing table or an unbindable
      integer leaves the table unchanged; otherwise exactly the valid tuples
      are appended, in order. */
  lemma StoredCases(hasTable: bool, rows: seq<Post>, parsed: seq<Post>, fault: DbFault)
    ensures parsed == [] ==> Stored(hasTable, rows, parsed, fault) == rows
    ensures fault != NoFault || !hasTable ==> Stored(hasTable, rows, parsed, fault) == rows
    ensures (exists p :: p in ValidPosts(parsed) && !Bindable(p)) ==> Stored(hasTable, rows, parsed, fault) == rows
    ensures hasTable && fault == NoFault && (forall p :: p in ValidPosts(parsed) ==> Bindable(p)) ==>
      Stored(hasTable, rows, parsed, fault) == rows + ValidPosts(parsed)
  {
  }

  /** There is no deduplication: storing the same input twice appends its valid
      tuples twice. */
  lemma StoreTwiceDoubles(rows: seq<Post>, parsed: seq<Post>)
    requires forall p :: p in ValidPosts(parsed) ==> Bindable(p)
    ensures Stored(true, Stored(true, rows, parsed, NoFault), parsed, NoFault)
      == rows + ValidPosts(parsed) + ValidPosts(parsed)
    ensures |Stored(true, Stored(true, rows, parsed, NoFault), parsed, NoFault)|
      == |rows| + 2 * |ValidPosts(parsed)|
  {
  }

  /** The database file with its one table `post(user_id, id, title, body)`. */
  class Database {
    var tableExists: bool
    var rows: seq<Post>

    /** Rows exist only in an existing table, and every row was validated. */
    ghost predicate Valid()
      reads this
    {
      && (!tableExists ==> rows == [])
      && (forall p :: p in rows ==> ValidatePost(p) && Bindable(p))
    }

    /** A database file with no table yet. */
    constructor ()
      ensures Valid()
      ensures !tableExists && rows == []
    {
      tableExists := false;
      rows := [];
    }

    /** `create_table`: create-if-absent, rows untouched. */
    method CreateTable(fault: DbFault) returns (outcome: Outcome)
      requires Valid()
      modifies this
      ensures Valid()
      ensures outcome == (if fault == ConnectError then Raised else Returned)
      ensures tableExists == (old(tableExists) || fault == NoFault)
      ensures rows == old(rows)
    {
      if fault == ConnectError {
        return Raised;
      }
      if fault == NoFault {
        tableExists := true;
      }
      return Returned;
    }

    /** `store_posts`: nothing to do on empty input; otherwise filter, then
        insert the survivors in one transaction that is committed only if no
        statement raised. */
    method StorePosts(parsed: seq<Post>, fault: DbFault) returns (outcome: Outcome)
      requires Valid()
      modifies this
      ensures Valid()
      ensures outcome == (if parsed != [] && fault == ConnectError then Raised else Returned)
      ensures tableExists == old(tableExists)
      ensures rows == Stored(old(tableExists), old(rows), parsed, fault)
    {
      if parsed == [] {
        return Returned;
      }
      var filtered := ValidPosts(parsed);
      if fault == ConnectError {
        return Raised;
      }
      // Inside the guarded block: executemany fails on a storage fault, on a
      // missing table or on an int sqlite3 cannot bind; the error is logged,
      // the commit is skipped and closing the connection discards the rows.
      var bindable := forall p :: p in filtered ==> Bindable(p);
      if fault == NoFault && tableExists && bindable {
        rows := rows + filtered;
      }
      return Returned;
    }
  }
}
