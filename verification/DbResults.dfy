/** The stored result of each database connection: when it is there, and that each one is freed once. */
module DbResults {
  import opened Bytes

  /** What the MySQL client makes of a query: an error the source gives up on, success without a result
      set, or a result set. */
  datatype Answer = Failed | NoResult | ResultSet(rows: nat, fields: nat)

  class Results {
    const mMySqlRes: array<Option<nat>> // results are numbered in the order in which they are stored
    const mMySqlNumRow: array<int>
    const mMySqlNumFields: array<int>
    const sqlLock: array<bool>
    var stored: nat                     // results stored so far
    ghost var freed: set<nat>           // those that have been freed

    ghost predicate Arrays() {
      && mMySqlNumRow != mMySqlNumFields
      && mMySqlRes.Length == mMySqlNumRow.Length == mMySqlNumFields.Length == sqlLock.Length
    }

    /** A connection has a result exactly when it has counts. */
    ghost predicate CountsAgree()
      requires Arrays()
      reads mMySqlRes, mMySqlNumRow, mMySqlNumFields
    {
      forall i :: 0 <= i < mMySqlRes.Length ==>
        && (mMySqlRes[i].None? <==> mMySqlNumRow[i] == -1 && mMySqlNumFields[i] == -1)
        && (mMySqlRes[i].Some? ==> mMySqlNumRow[i] >= 0 && mMySqlNumFields[i] >= 0)
    }

    /** Every stored result is held by one connection or has been freed, and not both. */
    ghost predicate Accounted()
      requires Arrays()
      reads this, mMySqlRes
    {
      && (forall i :: 0 <= i < mMySqlRes.Length && mMySqlRes[i].Some? ==>
            mMySqlRes[i].value < stored && mMySqlRes[i].value !in freed)
      && (forall i, j :: 0 <= i < j < mMySqlRes.Length && mMySqlRes[i].Some? ==> mMySqlRes[i] != mMySqlRes[j])
      && (forall r: nat :: r < stored ==> r in freed || Some(r) in mMySqlRes[..])
      && (forall r :: r in freed ==> r < stored)
    }

    ghost predicate Valid()
      reads this, mMySqlRes, mMySqlNumRow, mMySqlNumFields
    {
      Arrays() && CountsAgree() && Accounted()
    }

    constructor (connections: nat)
      ensures Valid() && stored == 0 && freed == {} && mMySqlRes.Length == connections
      ensures fresh(mMySqlRes) && fresh(mMySqlNumRow) && fresh(mMySqlNumFields) && fresh(sqlLock)
    {
      mMySqlRes := new Option<nat>[connections](_ => None);
      mMySqlNumRow := new int[connections](_ => -1);
      mMySqlNumFields := new int[connections](_ => -1);
      sqlLock := new bool[connections](_ => false);
      stored, freed := 0, {};
    }

    /** STSV_DBReleaseResult: a result is freed only while it is held, so never twice. */
    method ReleaseResult(idx: nat)
      requires Valid() && idx < mMySqlRes.Length
      modifies mMySqlRes, mMySqlNumRow, mMySqlNumFields, this`freed
      ensures Valid() && mMySqlRes[..] == old(mMySqlRes[..])[idx := None]
      ensures old(mMySqlRes[idx]).Some? ==> old(mMySqlRes[idx]).value !in old(freed)
      ensures freed == old(freed) + (if old(mMySqlRes[idx]).Some? then {old(mMySqlRes[idx]).value} else {})
    {
      if mMySqlRes[idx] != None {
        ghost var r, was := mMySqlRes[idx].value, mMySqlRes[..];
        freed := freed + {r};
        mMySqlRes[idx] := None;
        mMySqlNumFields[idx] := -1;
        mMySqlNumRow[idx] := -1;
        forall q: nat | q < stored
          ensures q in freed || Some(q) in mMySqlRes[..]
        {
          if q !in old(freed) && q != r {
            var k :| 0 <= k < |was| && was[k] == Some(q);
            assert mMySqlRes[..][k] == Some(q);
          }
        }
      }
    }

    /** Query and RealQuery: the old result goes first, whatever becomes of the query. */
    method Query(idx: nat, answer: Answer) returns (ok: bool)
      requires Valid() && idx < mMySqlRes.Length
      modifies mMySqlRes, mMySqlNumRow, mMySqlNumFields, this
      ensures Valid()
      ensures ok == (sqlLock[idx] && !answer.Failed?)
      ensures old(mMySqlRes[idx]).Some? ==> old(mMySqlRes[idx]).value in freed
      ensures var holds := ok && answer.ResultSet?;
              && stored == old(stored) + (if holds then 1 else 0)
              && mMySqlRes[..] == old(mMySqlRes[..])[idx := if holds then Some(old(stored)) else None]
              && (holds ==> mMySqlNumRow[idx] == answer.rows && mMySqlNumFields[idx] == answer.fields)
    {
      if mMySqlRes[idx] != None {
        ReleaseResult(idx);
      }
      if !sqlLock[idx] || answer == Failed {
        return false;
      }
      if answer.ResultSet? {
        ghost var was := mMySqlRes[..];
        mMySqlRes[idx] := Some(stored);
        mMySqlNumRow[idx] := answer.rows;
        mMySqlNumFields[idx] := answer.fields;
        stored := stored + 1;
        forall q: nat | q < stored
          ensures q in freed || Some(q) in mMySqlRes[..]
        {
          if q == stored - 1 {
            assert mMySqlRes[..][idx] == Some(q);
          } else if q !in freed {
            var k :| 0 <= k < |was| && was[k] == Some(q);
            assert mMySqlRes[..][k] == Some(q);
          }
        }
      }
      return true;
    }

    /** STSV_DBLastInsert: asking for the last id gives up the result held, locked or not. */
    method LastInsert(idx: nat, insertId: nat) returns (id: nat)
      requires Valid() && idx < mMySqlRes.Length
      modifies mMySqlRes, mMySqlNumRow, mMySqlNumFields, this`freed
      ensures Valid() && id == (if sqlLock[idx] then insertId else 0)
      ensures mMySqlRes[..] == old(mMySqlRes[..])[idx := None]
      ensures freed == old(freed) + (if old(mMySqlRes[idx]).Some? then {old(mMySqlRes[idx]).value} else {})
    {
      ReleaseResult(idx);
      id := if sqlLock[idx] then insertId else 0;
    }

    /** STDB_DisConnect: afterwards every result ever stored has been freed. */
    method Disconnect()
      requires Valid()
      modifies mMySqlRes, mMySqlNumRow, mMySqlNumFields, this`freed
      ensures Valid()
      ensures forall r: nat :: r < stored <==> r in freed
      ensures forall i :: 0 <= i < mMySqlRes.Length ==> mMySqlRes[i] == None
    {
      for i := 0 to mMySqlRes.Length
        invariant Valid()
        invariant forall k :: 0 <= k < i ==> mMySqlRes[k] == None
      {
        if mMySqlRes[i] != None {
          ghost var was := mMySqlRes[..];
          ReleaseResult(i);
          assert forall k :: 0 <= k < i ==> mMySqlRes[..][k] == was[k];
        }
      }
      forall r: nat | r < stored
        ensures r in freed
      {
        if Some(r) in mMySqlRes[..] {
          assert false;
        }
      }
    }
  }
}
