/**
 * `backup_db`: one backup cycle over the configured databases, in order,
 * with the single timestamp the scheduler passes in.  For each database the
 * snapshot is written to its artifact, and the artifact is uploaded under
 * the timestamped title; the first failure ends the cycle.
 */
module Executor {
  import opened Names

  /**
   * How the collaborators fared for one database: the snapshot (sqlite's
   * online backup into the artifact) or the upload (Drive's CreateFile,
   * SetContentFile and Upload) may raise.
   */
  datatype DbOutcome = Done | SnapshotFails | UploadFails

  /** One file created in the remote folder. */
  datatype Upload = Upload(title: string, parent: string, contentFile: string)

  /** Whether the cycle returned normally, or raised while handling database `at`. */
  datatype CycleResult = Completed | Aborted(at: nat)

  /** The upload `backup_db` makes for database `db` with timestamp `t`. */
  function UploadFor(db: string, parent: string, t: Stamp): (u: Upload)
    requires ValidStamp(t)
  {
    var p := SplitName(db);
    Upload(Title(p, t), parent, ArtifactName(p))
  }

  /** The artifacts written for the databases `dbs`, in order. */
  function Artifacts(dbs: seq<string>): (names: seq<string>)
    ensures |names| == |dbs|
  {
    if dbs == [] then []
    else Artifacts(dbs[..|dbs| - 1]) + [ArtifactName(SplitName(dbs[|dbs| - 1]))]
  }

  /** The uploads made for the databases `dbs`, in order, all with the timestamp `t`. */
  function Uploads(dbs: seq<string>, parent: string, t: Stamp): (us: seq<Upload>)
    requires ValidStamp(t)
    ensures |us| == |dbs|
  {
    if dbs == [] then []
    else Uploads(dbs[..|dbs| - 1], parent, t) + [UploadFor(dbs[|dbs| - 1], parent, t)]
  }

  lemma {:induction false} ArtifactsAt(dbs: seq<string>, i: nat)
    requires i < |dbs|
    ensures Artifacts(dbs)[i] == ArtifactName(SplitName(dbs[i]))
  {
    if i < |dbs| - 1 {
      ArtifactsAt(dbs[..|dbs| - 1], i);
    }
  }

  lemma {:induction false} UploadsAt(dbs: seq<string>, parent: string, t: Stamp, i: nat)
    requires ValidStamp(t) && i < |dbs|
    ensures Uploads(dbs, parent, t)[i] == UploadFor(dbs[i], parent, t)
  {
    if i < |dbs| - 1 {
      UploadsAt(dbs[..|dbs| - 1], parent, t, i);
    }
  }

  /**
   * Each upload of a cycle goes to the given folder, carries the cycle's one
   * timestamp in its title, and reads the artifact the snapshot of the same
   * database wrote.
   */
  lemma UploadsMatchArtifacts(dbs: seq<string>, parent: string, t: Stamp)
    requires ValidStamp(t)
    ensures forall i :: 0 <= i < |dbs| ==>
      && Uploads(dbs, parent, t)[i].contentFile == Artifacts(dbs)[i]
      && Uploads(dbs, parent, t)[i].parent == parent
      && Uploads(dbs, parent, t)[i].title == Title(SplitName(dbs[i]), t)
  {
    forall i | 0 <= i < |dbs|
      ensures Uploads(dbs, parent, t)[i].contentFile == Artifacts(dbs)[i]
      ensures Uploads(dbs, parent, t)[i].parent == parent
      ensures Uploads(dbs, parent, t)[i].title == Title(SplitName(dbs[i]), t)
    {
      UploadsAt(dbs, parent, t, i);
      ArtifactsAt(dbs, i);
    }
  }

  /**
   * Runs one cycle.  `outcomes[i]` says how the collaborators fare on
   * `dbs[i]`.  Returns the artifacts written, the uploads made and how the
   * cycle ended.  The databases are handled in list order; a failure at
   * index k leaves exactly the databases before k uploaded (and, when the
   * upload failed, the snapshot of k written) and nothing after k touched.
   */
  method BackupAll(dbs: seq<string>, parent: string, t: Stamp, outcomes: seq<DbOutcome>)
    returns (artifacts: seq<string>, uploads: seq<Upload>, result: CycleResult)
    requires ValidStamp(t) && |outcomes| == |dbs|
    ensures result.Completed? <==> forall i :: 0 <= i < |dbs| ==> outcomes[i].Done?
    ensures result.Completed? ==> |uploads| == |artifacts| == |dbs|
    ensures result.Aborted? ==>
      && result.at < |dbs|
      && !outcomes[result.at].Done?
      && (forall i :: 0 <= i < result.at ==> outcomes[i].Done?)
      && |uploads| == result.at
      && |artifacts| == (if outcomes[result.at].UploadFails? then result.at + 1 else result.at)
    ensures artifacts == Artifacts(dbs[..|artifacts|])
    ensures uploads == Uploads(dbs[..|uploads|], parent, t)
  {
    artifacts, uploads := [], [];
    var k := 0;
    while k < |dbs|
      invariant 0 <= k <= |dbs|
      invariant forall i :: 0 <= i < k ==> outcomes[i].Done?
      invariant artifacts == Artifacts(dbs[..k])
      invariant uploads == Uploads(dbs[..k], parent, t)
    {
      assert dbs[..k + 1][..k] == dbs[..k];
      var p := SplitName(dbs[k]);
      if outcomes[k].SnapshotFails? {
        result := Aborted(k);
        return;
      }
      artifacts := artifacts + [ArtifactName(p)];
      assert artifacts == Artifacts(dbs[..k + 1]);

      var title := Title(p, t);
      if outcomes[k].UploadFails? {
        result := Aborted(k);
        return;
      }
      uploads := uploads + [Upload(title, parent, ArtifactName(p))];
      assert uploads == Uploads(dbs[..k + 1], parent, t);
      k := k + 1;
    }
    assert dbs[..k] == dbs;
    result := Completed;
  }

  /**
   * For a database name with a period, the upload's title and its content
   * file keep the database's extension, and the title carries the cycle's
   * timestamp right after the base and its `_`.
   */
  lemma UploadNames(db: string, parent: string, t: Stamp)
    requires '.' in db && ValidStamp(t)
    ensures var u, p := UploadFor(db, parent, t), SplitName(db);
            && SplitName(u.title).ext == p.ext
            && SplitName(u.contentFile).ext == p.ext
            && ParseStamp(u.title[|p.base| + 1..|p.base| + 15]) == Some(Shown(t))
  {
    var p := SplitName(db);
    SplitAtLastPeriod(db);
    TitleSplit(p, t);
    ArtifactSplit(p);
    TitleStamp(p, t);
  }
}
