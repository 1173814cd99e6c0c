/**
 * The backend's model loader: it picks the environment name, keeps the
 * model files of its own directory that pass a filename filter, loads each
 * one into a registry keyed by model name, lets every registered model
 * that has an `associate` hook see the complete registry, and finally adds
 * the connection and the library under `sequelize` and `Sequelize`.
 *
 * The directory listing, the loader's own file name, each file's model
 * factory and the construction of the connection from the environment's
 * configuration are parameters.
 */
module ModelIndex {
  import opened Wrappers
  import opened JsString

  // ---------------------------------------------------------------------
  // The environment name.

  const DefaultEnv: string := "development"

  /** `process.env.NODE_ENV || 'development'`: an unset variable and the
      empty string are both falsy and fall back to the default. */
  function EnvName(nodeEnv: Option<string>): (env: string)
    ensures env != ""
    ensures nodeEnv.Some? && nodeEnv.value != "" ==> env == nodeEnv.value
    ensures nodeEnv == None || nodeEnv == Some("") ==> env == "development"
  {
    if nodeEnv.Some? && nodeEnv.value != "" then nodeEnv.value else DefaultEnv
  }

  // ---------------------------------------------------------------------
  // The filename filter.

  /** The filter's predicate, written with the string operations it uses. */
  predicate KeepFile(file: string, basename: string) {
    && IndexOf(file, ".") != 0
    && file != basename
    && Slice(file, -3) == ".js"
    && IndexOf(file, ".test.js") == -1
  }

  /** A file is kept exactly when it does not start with `.` (hidden files),
      is not the loader itself, ends in `.js` and nowhere contains
      `.test.js`. */
  lemma KeepFileMeaning(file: string, basename: string)
    ensures KeepFile(file, basename) <==>
      && |file| > 0 && file[0] != '.'
      && file != basename
      && EndsWith(file, ".js")
      && !Contains(file, ".test.js")
  {
  }

  /** The directory listing filtered by `KeepFile`, in listing order. */
  function FilterFiles(files: seq<string>, basename: string): (kept: seq<string>)
    ensures |kept| <= |files|
    ensures forall f :: f in kept ==> f in files && KeepFile(f, basename)
    ensures forall f :: f in files && KeepFile(f, basename) ==> f in kept
  {
    if |files| == 0 then []
    else if KeepFile(files[0], basename) then [files[0]] + FilterFiles(files[1..], basename)
    else FilterFiles(files[1..], basename)
  }

  /** `a` is `b` with some elements left out and the rest in order. */
  ghost predicate IsSubsequence<T>(a: seq<T>, b: seq<T>)
    decreases |b|
  {
    if |a| == 0 then true
    else if |b| == 0 then false
    else (a[0] == b[0] && IsSubsequence(a[1..], b[1..])) || IsSubsequence(a, b[1..])
  }

  lemma {:induction false} FilterIsSubsequence(files: seq<string>, basename: string)
    ensures IsSubsequence(FilterFiles(files, basename), files)
    decreases |files|
  {
    if |files| > 0 {
      FilterIsSubsequence(files[1..], basename);
      var rest := FilterFiles(files[1..], basename);
      if KeepFile(files[0], basename) {
        assert ([files[0]] + rest)[1..] == rest;
      }
    }
  }

  /** Filtering the kept names again keeps all of them. */
  lemma {:induction false} FilterIsIdempotent(files: seq<string>, basename: string)
    ensures FilterFiles(FilterFiles(files, basename), basename) == FilterFiles(files, basename)
    decreases |files|
  {
    if |files| > 0 {
      FilterIsIdempotent(files[1..], basename);
      var rest := FilterFiles(files[1..], basename);
      if KeepFile(files[0], basename) {
        assert ([files[0]] + rest)[1..] == rest;
      }
    }
  }

  // ---------------------------------------------------------------------
  // The registry.

  /** What loading a model file yields: the model's `name`, and whether it
      defines an `associate` hook. */
  datatype Model = Model(name: string, hasAssociate: bool)

  /** One call `registry[name].associate(registry)`. */
  datatype AssociateCall = AssociateCall(name: string, registry: map<string, Model>)

  /** A value of the exported `db` object. */
  datatype DbValue<C> = ModelValue(model: Model) | Connection(conn: C) | Library

  datatype SetupResult<C> = SetupResult(
    env: string,
    files: seq<string>,
    registry: map<string, Model>,
    keys: seq<string>,
    calls: seq<AssociateCall>,
    db: map<string, DbValue<C>>)

  /** The models of `files`, in load order. */
  function LoadModels(files: seq<string>, factory: string -> Model): (models: seq<Model>)
    ensures |models| == |files|
    ensures forall i :: 0 <= i < |files| ==> models[i] == factory(files[i])
  {
    seq(|files|, i requires 0 <= i < |files| => factory(files[i]))
  }

  /** No model in `models[j + 1..upto]` has the name of `models[j]`. */
  ghost predicate LastOfName(models: seq<Model>, j: int, upto: int)
    requires 0 <= j < upto <= |models|
  {
    forall k :: j < k < upto ==> models[k].name != models[j].name
  }

  ghost predicate NoDuplicates<T>(s: seq<T>) {
    forall a, b :: 0 <= a < b < |s| ==> s[a] != s[b]
  }

  /** The `for … of` loop: each file's model is stored under its `name`;
      `keys` is the order in which the names were first stored, the order
      `Object.keys` lists them in. */
  method Register(files: seq<string>, factory: string -> Model)
    returns (registry: map<string, Model>, keys: seq<string>)
    ensures forall j :: 0 <= j < |files| ==> factory(files[j]).name in registry
    ensures forall n :: n in registry ==> registry[n].name == n
    ensures forall n :: n in registry ==> exists j :: 0 <= j < |files| && factory(files[j]) == registry[n]
    ensures forall j :: 0 <= j < |files| && LastOfName(LoadModels(files, factory), j, |files|) ==>
              registry[factory(files[j]).name] == factory(files[j])
    ensures NoDuplicates(keys)
    ensures forall n :: n in keys <==> n in registry
  {
    ghost var models := LoadModels(files, factory);
    registry := map[];
    keys := [];
    var i := 0;
    while i < |files|
      invariant 0 <= i <= |files|
      invariant forall j :: 0 <= j < i ==> models[j].name in registry
      invariant forall n :: n in registry ==> registry[n].name == n
      invariant forall n :: n in registry ==> exists j :: 0 <= j < i && models[j] == registry[n]
      invariant forall j :: 0 <= j < i && LastOfName(models, j, i) ==> registry[models[j].name] == models[j]
      invariant NoDuplicates(keys)
      invariant forall n :: n in keys <==> n in registry
    {
      var model := factory(files[i]);
      if model.name !in registry {
        keys := keys + [model.name];
      }
      registry := registry[model.name := model];
      i := i + 1;
    }
  }

  /** The `forEach` over `Object.keys(db)`: `associate(db)` for every
      registered model that defines it. */
  method Associate(registry: map<string, Model>, keys: seq<string>)
    returns (calls: seq<AssociateCall>)
    requires NoDuplicates(keys)
    requires forall n :: n in keys <==> n in registry
    ensures forall c :: c in calls ==> c.registry == registry
    ensures forall n :: (exists c :: c in calls && c.name == n) <==> n in registry && registry[n].hasAssociate
    ensures forall a, b :: 0 <= a < b < |calls| ==> calls[a].name != calls[b].name
  {
    calls := [];
    var k := 0;
    while k < |keys|
      invariant 0 <= k <= |keys|
      invariant forall c :: c in calls ==> c.registry == registry
      invariant forall n :: (exists c :: c in calls && c.name == n) <==> n in keys[..k] && registry[n].hasAssociate
      invariant forall a, b :: 0 <= a < b < |calls| ==> calls[a].name != calls[b].name
    {
      var name := keys[k];
      assert keys[..k + 1] == keys[..k] + [name];
      if registry[name].hasAssociate {
        calls := calls + [AssociateCall(name, registry)];
        assert calls[|calls| - 1].name == name;
      }
      k := k + 1;
    }
    assert keys[..k] == keys;
  }

  /** The exported object: the registry, then `sequelize` and `Sequelize`
      assigned over it. */
  function Exports<C>(registry: map<string, Model>, conn: C): (db: map<string, DbValue<C>>)
    ensures db.Keys == registry.Keys + {"sequelize", "Sequelize"}
    ensures db["sequelize"] == Connection(conn) && db["Sequelize"] == Library
    ensures forall n :: n in registry && n != "sequelize" && n != "Sequelize" ==> db[n] == ModelValue(registry[n])
  {
    var models := map n | n in registry :: ModelValue(registry[n]);
    models["sequelize" := Connection(conn)]["Sequelize" := Library]
  }

  /** What the loader leaves behind once a connection `conn` exists: the
      kept files, every kept file's model registered under its own name
      with the last of a name winning and nothing else registered,
      `associate` once per registered model that has it on the complete
      registry, and the exported object. */
  ghost predicate IsLoaderResult<C>(res: SetupResult<C>, listing: seq<string>, basename: string,
                                    factory: string -> Model, conn: C)
  {
    && res.files == FilterFiles(listing, basename)
    && (forall j :: 0 <= j < |res.files| ==> factory(res.files[j]).name in res.registry)
    && (forall n :: n in res.registry ==> res.registry[n].name == n)
    && (forall n :: n in res.registry ==> exists j :: 0 <= j < |res.files| && factory(res.files[j]) == res.registry[n])
    && (forall j :: 0 <= j < |res.files| && LastOfName(LoadModels(res.files, factory), j, |res.files|) ==>
          res.registry[factory(res.files[j]).name] == factory(res.files[j]))
    && (forall c :: c in res.calls ==> c.registry == res.registry)
    && (forall n :: (exists c :: c in res.calls && c.name == n) <==> n in res.registry && res.registry[n].hasAssociate)
    && (forall a, b :: 0 <= a < b < |res.calls| ==> res.calls[a].name != res.calls[b].name)
    && res.db == Exports(res.registry, conn)
  }

  /** The whole of the loader, with the configuration blocks, the making
      of a connection from a block, the directory listing, the loader's
      own file name and the per-file model factories given as inputs.
      `None` is the loader throwing: when the environment has no
      configuration block, reading `use_env_variable` of `undefined` fails
      before any file is read. */
  method Setup<Cfg, C(==)>(nodeEnv: Option<string>, configs: map<string, Cfg>, connect: Cfg -> C,
                           listing: seq<string>, basename: string, factory: string -> Model)
    returns (res: Option<SetupResult<C>>)
    ensures res.None? <==> EnvName(nodeEnv) !in configs
    ensures res.Some? ==> res.value.env == EnvName(nodeEnv)
    ensures res.Some? ==> IsLoaderResult(res.value, listing, basename, factory, connect(configs[res.value.env]))
    ensures res.Some? ==> res.value.db["sequelize"] == Connection(connect(configs[res.value.env]))
  {
    var env := EnvName(nodeEnv);
    if env !in configs {
      return None;
    }
    var conn := connect(configs[env]);
    var files := FilterFiles(listing, basename);
    var registry, keys := Register(files, factory);
    var calls := Associate(registry, keys);
    res := Some(SetupResult(env, files, registry, keys, calls, Exports(registry, conn)));
  }
}
