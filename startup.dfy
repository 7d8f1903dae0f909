/**
 * The check made on the command line's database names before the scheduler
 * is started: every name must contain a period, and the names that do not
 * are reported instead of starting.
 */
module Startup {
  import opened Names

  /** `[db for db in databases if db.find('.') == -1]`. */
  function NameErrors(dbs: seq<string>): (errs: seq<string>)
    ensures |errs| <= |dbs|
    ensures forall db :: db in errs <==> db in dbs && '.' !in db
  {
    if dbs == [] then []
    else (if Find(dbs[0], '.') == -1 then [dbs[0]] else []) + NameErrors(dbs[1..])
  }

  /** The names are reported in the order they were given. */
  lemma {:induction false} NameErrorsAppend(a: seq<string>, b: seq<string>)
    ensures NameErrors(a + b) == NameErrors(a) + NameErrors(b)
  {
    if a == [] {
      assert a + b == b;
    } else {
      assert (a + b)[1..] == a[1..] + b;
      NameErrorsAppend(a[1..], b);
    }
  }

  /** A single name is reported exactly when it has no period. */
  lemma NameErrorsSingle(db: string)
    ensures NameErrors([db]) == if '.' in db then [] else [db]
  {
    assert [db][1..] == [];
  }

  datatype Launch = Start | Reject(names: seq<string>)

  /** Either the scheduler is started, or the offending names are reported. */
  function Startup(dbs: seq<string>): (r: Launch)
    ensures r.Start? <==> forall db :: db in dbs ==> '.' in db
    ensures r.Reject? ==> r.names != [] && forall db :: db in r.names ==> db in dbs && '.' !in db
    ensures r.Reject? ==> r.names == NameErrors(dbs)
  {
    var errs := NameErrors(dbs);
    if errs != [] then
      assert errs[0] in errs;
      Reject(errs)
    else Start
  }

  /**
   * Once started, every database name splits into a base and a proper
   * extension that together give back the name.
   */
  lemma StartedNamesSplit(dbs: seq<string>)
    requires Startup(dbs).Start?
    ensures forall i :: 0 <= i < |dbs| ==>
      SplitName(dbs[i]).base + SplitName(dbs[i]).ext == dbs[i] && IsExtension(SplitName(dbs[i]).ext)
  {
    forall i | 0 <= i < |dbs|
      ensures IsExtension(SplitName(dbs[i]).ext)
    {
      assert dbs[i] in dbs;
      SplitAtLastPeriod(dbs[i]);
    }
  }

  /**
   * The check looks for a period anywhere in the path, so a period in a
   * directory name lets an extension-less file through, and the split then
   * falls inside the directory part.
   */
  lemma DirectoryPeriodExample()
    ensures Startup(["./data/db"]).Start?
    ensures SplitName("./data/db") == NameParts("", "./data/db")
  {
    assert "./data/db"[0] == '.';
    assert "./data/db" in ["./data/db"];
    SplitNameUnique("./data/db", "", "./data/db");
  }
}
