/** The run theorems for records as JSON lines, with nothing left assumed about the format. */
module JsonRuns {
  import opened Wrappers
  import opened Chain
  import opened JsonRecords
  import opened Encoding
  import opened Agreement
  import Text
  import JsonTokenizer
  import JsonPrinter
  import TornLines
  import WrittenLines
  import RecordFiles
  import Writer
  import HonestWorld
  import AuditLogger
  import CutFiles
  import ResumeMeaning
  import DupKey
  import GapMarkers
  import HonestVerdict

  function WriterEnv(hash: Hash, marker: Writer.Gap -> Body): Writer.Env<Body> { Writer.Env(JsonFormat(), hash, marker) }

  /** Whatever the appends do and however often the process restarts, the file of JSON lines verifies as one
      chain of exactly the stored records. */
  lemma JsonWriterStaysOneChain(hash: Hash, marker: Writer.Gap -> Body, ops: seq<Writer.Op<Body>>)
    ensures Writer.OneChain(WriterEnv(hash, marker), Writer.Run(WriterEnv(hash, marker), Writer.Boot<Body>(), ops))
    ensures Writer.Accounted(Writer.Run(WriterEnv(hash, marker), Writer.Boot<Body>(), ops))
  {
    hide JsonFormat, Writer.Run, Writer.OneChain, Writer.Accounted;
    JsonFormatIsFaithful();
    Writer.WriterRunStaysOneChain(WriterEnv(hash, marker), ops);
    Writer.DropsConserved(WriterEnv(hash, marker), ops);
  }

  // ----- a hard kill

  /** No proper beginning of a written line parses, and none is blank. */
  lemma JsonCutsFail()
    ensures CutFiles.CutsFail(JsonFormat())
  {
    hide Render, ReadLine, Text.Blank;
    forall p: Body, i: Integrity, k: nat | 0 < k < |Render(p, i)|
      ensures ReadLine(Render(p, i)[..k]) == NotJson && !Text.Blank(Render(p, i)[..k])
    {
      CutLine(p, i, k);
    }
  }

  lemma CutLine(p: Body, i: Integrity, k: nat)
    requires 0 < k < |Render(p, i)|
    ensures ReadLine(Render(p, i)[..k]) == NotJson && !Text.Blank(Render(p, i)[..k])
  {
    hide Stringify, Utf8, Lexed, WfJs, JsonPrinter.Wf, JsonPrinter.Print, JsonTokenizer.ParseLine, RecordJs;
    var v := RecordJs(p, i);
    assert v.JObj? by { ObjectRecord(p, i); }
    RecordWf(p, i);
    LexedPrints(v, 0);
    LexedWf(v, 0);
    ObjectHead(v);
    LexedObject(v);
    TornLines.CutFails(Lexed(v), k);
    assert !Text.IsSpace(Render(p, i)[..k][0]);
  }

  lemma ObjectRecord(p: Body, i: Integrity)
    ensures RecordJs(p, i).JObj?
  {
  }

  lemma LexedObject(v: Js)
    requires v.JObj?
    ensures Lexed(v).Obj?
  {
  }

  /** Kill the writer while its file is being written, at whatever byte: after any run, the file cut anywhere
      verifies, keeps every record complete before the cut, and notes a torn tail exactly when the cut fell inside
      a record. */
  lemma KilledWriterVerifies(hash: Hash, marker: Writer.Gap -> Body, ops: seq<Writer.Op<Body>>, n: nat) returns (c: nat)
    requires n <= |Writer.Run(WriterEnv(hash, marker), Writer.Boot<Body>(), ops).file|
    ensures CutFiles.CutVerifies(JsonFormat(), hash, Writer.OnFile(Writer.Run(WriterEnv(hash, marker), Writer.Boot<Body>(), ops)), FRESH, n, c)
  {
    hide JsonFormat, Writer.Run, CutFiles.CutVerifies, CutFiles.CutsFail, Writer.OnFile, RecordFiles.Faithful, RecordFiles.FileFrom;
    JsonFormatIsFaithful();
    JsonCutsFail();
    var w := Writer.Run(WriterEnv(hash, marker), Writer.Boot<Body>(), ops);
    RunFile(WriterEnv(hash, marker), ops);
    c := CutFiles.CutFileVerifies(JsonFormat(), hash, Writer.OnFile(w), FRESH, n);
  }

  /** And a restart on what is left goes on from the last complete record, whatever the chunk size. */
  lemma KilledWriterResumes(hash: Hash, marker: Writer.Gap -> Body, ops: seq<Writer.Op<Body>>, n: nat, chunk: nat) returns (c: nat)
    requires n <= |Writer.Run(WriterEnv(hash, marker), Writer.Boot<Body>(), ops).file| && chunk > 0
    ensures ResumeMeaning.CutResumes(JsonFormat(), hash, Writer.OnFile(Writer.Run(WriterEnv(hash, marker), Writer.Boot<Body>(), ops)),
                                     FRESH, n, chunk, c)
  {
    hide JsonFormat, Writer.Run, ResumeMeaning.CutResumes, ResumeMeaning.CutsTorn, Writer.OnFile, RecordFiles.Faithful, RecordFiles.FileFrom;
    JsonFormatIsFaithful();
    JsonCutsTorn();
    var w := Writer.Run(WriterEnv(hash, marker), Writer.Boot<Body>(), ops);
    RunFile(WriterEnv(hash, marker), ops);
    c := ResumeMeaning.CutFileResumes(JsonFormat(), hash, Writer.OnFile(w), FRESH, n, chunk);
  }

  lemma JsonCutsTorn()
    ensures ResumeMeaning.CutsTorn(JsonFormat())
  {
    hide Render, ReadLine, Text.Blank;
    forall p: Body, i: Integrity, k: nat | 0 < k < |Render(p, i)|
      ensures ResumeLine(Render(p, i)[..k]).None? && !Text.Blank(Render(p, i)[..k])
    {
      CutLine(p, i, k);
    }
  }

  lemma RunFile(env: Writer.Env<Body>, ops: seq<Writer.Op<Body>>)
    requires RecordFiles.Faithful(env.f)
    ensures var w := Writer.Run(env, Writer.Boot<Body>(), ops);
            w.file == RecordFiles.FileFrom(env.f, env.hash, Writer.OnFile(w), FRESH)
  {
    hide Writer.Run, Writer.OnFile, RecordFiles.Faithful, RecordFiles.FileFrom, Writer.Accounted;
    Writer.BootConsistent(env);
    Writer.RunKeeps(env, Writer.Boot<Body>(), ops);
  }

  /** The text of a written record, whole or cut, is never reported for a duplicate key. */
  lemma CutNoDuplicate(p: Body, i: Integrity, k: nat)
    requires k <= |Stringify(RecordJs(p, i))|
    ensures DupKey.FindDuplicateKey(Stringify(RecordJs(p, i))[..k]) == None
  {
    hide RecordJs, Stringify, DupKey.FindDuplicateKey, WfJs;
    RecordWf(p, i);
    WrittenLines.WrittenUnreported(RecordJs(p, i));
    WrittenLines.CutUnreported(Stringify(RecordJs(p, i)), k);
  }

  // ----- drops

  /** A writer of JSON lines whose markers are those the logger makes. */
  function LoggerEnv(hash: Hash, stamp: Writer.Gap -> GapMarkers.Stamp): Writer.Env<Body> {
    WriterEnv(hash, g => GapMarkers.GapBody(stamp(g), g))
  }

  /** No emitted event carries the action kept for gap markers. */
  predicate NoGapAction(ops: seq<Writer.Op<Body>>) {
    forall i | 0 <= i < |ops| && ops[i].EmitOp? :: GapMarkers.ActionOf(ops[i].payload) != Some(GAP_ACTION)
  }

  /** In one process on a new file of JSON lines, the drops a verifier reads off the markers on file and those
      the logger still holds undeclared are all that was dropped, whatever the appends do. */
  lemma JsonAuditorSeesEveryDrop(hash: Hash, stamp: Writer.Gap -> GapMarkers.Stamp, ops: seq<Writer.Op<Body>>)
    requires AuditLogger.OneProcess(ops) && NoGapAction(ops)
    ensures AuditLogger.EveryDropSeen(LoggerEnv(hash, stamp), Writer.Run(LoggerEnv(hash, stamp), Writer.Boot<Body>(), ops))
  {
    hide Writer.Run, AuditLogger.EveryDropSeen, DeclaredDrops, CanonOf, GapMarkers.GapBody, GapMarkers.ActionOf;
    var env := LoggerEnv(hash, stamp);
    JsonFormatIsFaithful();
    forall g: Writer.Gap
      ensures DeclaredDrops(CanonOf(GapMarkers.GapBody(stamp(g), g))) == Some(g.count)
    {
      GapMarkers.GapDeclaresItsCount(stamp(g), g);
    }
    assert AuditLogger.MarkersDeclare(env);
    forall i | 0 <= i < |ops| && ops[i].EmitOp?
      ensures DeclaredDrops(CanonOf(ops[i].payload)) == None
    {
      GapMarkers.DeclaredDropsExactly(ops[i].payload);
    }
    AuditLogger.AuditorSeesEveryDrop(env, ops);
  }

  /** An honest run over JSON lines never looks tampered with. */
  lemma JsonRunsNeverLookTampered(env: HonestWorld.Env<Body>, ops: seq<HonestWorld.Op<Body>>)
    requires env.f == JsonFormat() && HonestWorld.PathsAgree(env.layout) && HonestWorld.Signs(env.t)
    requires HonestVerdict.Fresh(env, HonestWorld.Run(env, HonestWorld.Boot<Body>(), ops))
    ensures HonestVerdict.Untampered(env, HonestWorld.Run(env, HonestWorld.Boot<Body>(), ops))
  {
    hide JsonFormat, HonestWorld.Run, HonestVerdict.Untampered, HonestVerdict.Fresh, HonestWorld.PathsAgree, HonestWorld.Signs;
    JsonFormatIsFaithful();
    HonestVerdict.HonestRunsNeverLookTampered(env, ops);
  }
}
