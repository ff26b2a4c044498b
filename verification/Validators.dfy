/** The six exported protobuf validators: the closed vocabulary they may mention,
    the extraction that insists on all of them, and what the pipeline guarantees. */
module Validators {
  import opened Values
  import opened Lowering
  import Script
  import Ir
  import Rust
  import Codegen
  import CodegenMeaning
  import LoweringMeaning
  import Acceptance
  import CallArity
  import Pipeline
  import Qualification

  const SNAPSHOT := "validateSnapshotProtobuf"
  const PATCH := "validatePatchProtobuf"

  const NAMES: set<string> := {
    SNAPSHOT, PATCH, "validateExternalBlobReference",
    "validateMutationProtobuf", "validateRecordProtobuf", "validateKeyIdProtobuf"
  }

  const KEYS: set<string> := {
    "binarySyncData", "blob", "clientDebugData", "collection", "deviceIndex", "directPath", "exitCode",
    "externalMutations", "fileEncSha256", "fileSha256", "fileSizeBytes", "handle", "id", "index", "indexMac",
    "keyId", "length", "byteLength", "mac", "mediaKey", "mutations", "operation", "patchMac", "record", "records",
    "snapshotMac", "timestamp", "value", "valueMac", "version"
  }

  const METRICS: set<string> := {
    "MISSING_EXTERNAL_BLOB_REFERENCE_MEDIA_KEY", "MISSING_EXTERNAL_BLOB_REFERENCE_DIRECT_PATH",
    "MISSING_EXTERNAL_BLOB_REFERENCE_FILE_SHA256", "MISSING_EXTERNAL_BLOB_REFERENCE_FILE_ENC_SHA256",
    "MISSING_MUTATION_OPERATION", "MISSING_MUTATION_RECORD", "MISSING_PATCH_VERSION",
    "PATCH_WITH_BOTH_INLINE_AND_EXTERNAL_MUTATIONS", "MISSING_PATCH_SNAPSHOT_MAC", "MISSING_PATCH_MAC",
    "MISSING_PATCH_KEY_ID", "MISSING_MUTATION_INDEX", "MISSING_MUTATION_VALUE", "MISSING_MUTATION_KEY_ID",
    "MISSING_SNAPSHOT_VERSION", "MISSING_SNAPSHOT_MAC", "MISSING_SNAPSHOT_KEY_ID", "MISSING_ACTION_VALUE",
    "MISSING_ACTION_TIMESTAMP"
  }

  const TRANSFORMS: map<(string, string), TransformKind> := map[
    ("WALongInt", "numberOrThrowIfTooLarge") := SafeInteger,
    ("WALongInt", "maybeNumberOrThrowIfTooLarge") := MaybeNumber,
    ("WASyncdKeyTypes", "toSyncKeyId") := SyncKeyId,
    ("WAWebSyncdKeyTypes", "toSyncKeyId") := SyncKeyId
  ]

  const SPECS: map<string, TransformKind> := map[
    "PatchDebugDataSpec" := DecodePatchDebugData,
    "SyncActionDataSpec" := DecodeSyncActionData
  ]

  const VOCABULARY := Script.Vocabulary(KEYS, METRICS, NAMES, TRANSFORMS, SPECS,
    "WAWebSyncdMetricFatalError", "WAWebSyncdError", "decodeProtobuf", "WAWebProtobufSyncAction.pb")

  /** Which field of the protobuf argument is known to be an ordinary array. */
  function ArrayField(name: string): Option<string> {
    if name == SNAPSHOT then Some("records") else if name == PATCH then Some("mutations") else None
  }

  function DialectOf(name: string, receiver: string, loaders: set<string>): Dialect {
    Dialect(receiver, loaders, VOCABULARY, ArrayField(name), false)
  }

  type Found = map<string, Script.Function>

  /** All six exported, nothing else exported, every one compiled. */
  predicate Extracted(found: Found, receiver: string, loaders: set<string>) {
    found.Keys == NAMES && forall name | name in NAMES :: LowerFunction(found[name], DialectOf(name, receiver, loaders)).Accepted?
  }

  /** The four validators without a designated array argument, which the others call. */
  function Helpers(found: Found, receiver: string, loaders: set<string>): Pipeline.Suite {
    Pipeline.Suite(map n | n in found && n != SNAPSHOT && n != PATCH :: found[n], loaders, receiver, VOCABULARY)
  }

  /** The generated file exists and its function bodies type-check. */
  predicate Generated(found: Found, receiver: string, loaders: set<string>) {
    Extracted(found, receiver, loaders) &&
    forall name | name in NAMES :: Pipeline.TypeChecks(found[name], DialectOf(name, receiver, loaders), Helpers(found, receiver, loaders))
  }

  /** Extraction succeeds exactly on the six qualified validators. */
  lemma ExtractedExactly(found: Found, receiver: string, loaders: set<string>)
    ensures Extracted(found, receiver, loaders) <==>
      found.Keys == NAMES && forall name | name in NAMES :: Qualification.Qualified(found[name], DialectOf(name, receiver, loaders))
  {
    hide LowerFunction, Qualification.Qualified;
    if found.Keys == NAMES {
      forall name | name in NAMES { Acceptance.LowersExactly(found[name], DialectOf(name, receiver, loaders)); }
    }
  }

  /** And the file then exists and type-checks exactly if each validator has at most three
      parameters, returns on every path, and calls transforms with one argument and the four
      helpers with as many as they take. */
  lemma GeneratedExactly(found: Found, receiver: string, loaders: set<string>)
    ensures Generated(found, receiver, loaders) <==>
      found.Keys == NAMES && forall name | name in NAMES ::
        Qualification.Typed(found[name], DialectOf(name, receiver, loaders), Pipeline.Arities(Helpers(found, receiver, loaders)))
  {
    hide LowerFunction, Qualification.Typed, Pipeline.Arities, Helpers, CallArity.FitsBody, Codegen.GenProgram, Codegen.DefinitelyReturns;
    if found.Keys == NAMES {
      forall name | name in NAMES {
        Acceptance.TypeChecksExactly(found[name], DialectOf(name, receiver, loaders), Helpers(found, receiver, loaders));
      }
    }
  }

  /** Running the generated file is running the script: each of the six entry points,
      to any call depth, on any conforming argument and in any world. */
  lemma GeneratedFilePreserves(found: Found, receiver: string, loaders: set<string>, name: string, depth: nat,
                               args: seq<Value>, log: Log, world: Oracle, base: Rust.Runtime)
    requires Generated(found, receiver, loaders) && name in NAMES
    requires LoweringMeaning.Modelled(world) && CodegenMeaning.SameRuntime(world, base)
    requires ArrayField(name).Some? ==>
               var x := ReadField(ArgAt(args, 1), ArrayField(name).value); x.Failed? || ArrayOrNullish(x.value)
    ensures var suite := Helpers(found, receiver, loaders);
      var script := Script.Apply(found[name], args, log,
        Script.Realm(loaders, receiver, VOCABULARY, Pipeline.ScriptWorld(suite, depth, world)));
      script.answer != Failed(Unmodelled) &&
      CodegenMeaning.SameAnswer(script,
        Rust.Call(Pipeline.RustOf(found[name], DialectOf(name, receiver, loaders)), args, log, Pipeline.RustWorld(suite, depth, base)))
  {
    var suite := Helpers(found, receiver, loaders);
    var c := DialectOf(name, receiver, loaders);
    assert LoweringMeaning.Conforms(args, c);
    assert Pipeline.SuiteCompiles(suite) by {
      hide Pipeline.TypeChecks;
      forall n | n in suite.scripts ensures Pipeline.TypeChecks(suite.scripts[n], Pipeline.Inner(suite), suite) {
        assert Pipeline.Inner(suite) == DialectOf(n, receiver, loaders);
      }
    }
    hide Pipeline.TypeChecks, Pipeline.SuiteCompiles, Pipeline.ScriptWorld, Pipeline.RustWorld, Pipeline.RustOf,
         LoweringMeaning.Conforms, LoweringMeaning.Modelled, CodegenMeaning.SameRuntime, CodegenMeaning.SameAnswer,
         Script.Apply, Rust.Call;
    Pipeline.SuitePreserves(suite, found[name], c, depth, args, log, world, base);
  }
}
