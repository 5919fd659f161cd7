/**
 The `claims` table: a list of records `{name, token, salt}` in insertion
 order. Lookups filter the list by project name and use the first match, as
 a document store's `search` does; new claims are appended.
 */
module ClaimStore {
  import opened Prelude
  import opened Hex

  /** One stored claim: the project name, the token's hash and the salt as lower-case hex text. */
  datatype Record = Record(name: string, token: string, salt: string)

  /** The records whose name is `name`, in table order. */
  function Search(table: seq<Record>, name: string): (r: seq<Record>)
    ensures forall x :: x in r ==> x in table && x.name == name
    ensures |r| == 0 <==> forall i :: 0 <= i < |table| ==> table[i].name != name
    ensures |r| <= |table|
  {
    if |table| == 0 then []
    else if table[0].name == name then [table[0]] + Search(table[1..], name)
    else Search(table[1..], name)
  }

  /** True when some record carries `name`. */
  predicate IsClaimed(table: seq<Record>, name: string) {
    exists i :: 0 <= i < |table| && table[i].name == name
  }

  /** At most one record per project name. */
  predicate UniqueNames(table: seq<Record>) {
    forall i, j :: 0 <= i < j < |table| ==> table[i].name != table[j].name
  }

  /** The stored salt decodes to 32 bytes, as a salt written by a claim does. */
  predicate SaltWellFormed(rec: Record) {
    var d := FromHex(rec.salt);
    d.Some? && |d.value| == 32
  }

  predicate AllSaltsWellFormed(table: seq<Record>) {
    forall i :: 0 <= i < |table| ==> SaltWellFormed(table[i])
  }

  /** Searching after an append finds the old matches followed by the new record if it matches. */
  lemma {:induction false} SearchAppend(table: seq<Record>, rec: Record, name: string)
    ensures Search(table + [rec], name)
         == Search(table, name) + (if rec.name == name then [rec] else [])
  {
    if |table| == 0 {
      assert table + [rec] == [rec];
    } else {
      assert (table + [rec])[1..] == table[1..] + [rec];
      SearchAppend(table[1..], rec, name);
    }
  }

  /** With unique names, a claimed project's search finds exactly its one record. */
  lemma {:induction false} SearchUnique(table: seq<Record>, i: nat)
    requires UniqueNames(table)
    requires i < |table|
    ensures Search(table, table[i].name) == [table[i]]
  {
    if i == 0 {
      assert forall k :: 0 <= k < |table[1..]| ==> table[1..][k].name != table[0].name by {
        forall k | 0 <= k < |table[1..]| ensures table[1..][k].name != table[0].name {
          assert table[1..][k] == table[k + 1];
        }
      }
    } else {
      var tail := table[1..];
      assert UniqueNames(tail) by {
        forall a, b | 0 <= a < b < |tail| ensures tail[a].name != tail[b].name {
          assert tail[a] == table[a + 1] && tail[b] == table[b + 1];
        }
      }
      assert tail[i - 1] == table[i];
      SearchUnique(tail, i - 1);
    }
  }
}
