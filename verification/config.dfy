/** Environment-variable substitution over a loaded configuration value,
    as `resolve_env` inside `load_config` performs it. The process
    environment is passed in as a map. */
module Config {
  import opened Wrappers

  /** A value as the YAML loader produces it. A mapping keeps its entries in
      insertion order, as a Python dict does; keys are never rewritten. */
  datatype Value =
    | Null
    | Bool(b: bool)
    | Int(i: int)
    | Float(f: real)
    | Str(s: string)
    | List(items: seq<Value>)
    | Dict(entries: seq<(Value, Value)>)

  /** The process environment: variable name to value. */
  type Env = map<string, string>

  /** A string starting with `${` and ending with `}`. */
  predicate IsPlaceholder(s: string) {
    "${" <= s && s[|s| - 1] == '}'
  }

  /** The variable named by a placeholder: the text between `${` and the
      closing `}`. */
  function PlaceholderName(s: string): (name: string)
    requires IsPlaceholder(s)
    ensures "${" + name + "}" == s
  {
    s[2..|s| - 1]
  }

  /** `os.getenv(name, "")`: the variable's value, or the empty string when
      it is unset. */
  function Getenv(env: Env, name: string): string {
    if name in env then env[name] else ""
  }

  /** `resolve_env`: mappings are rebuilt with the same keys in the same
      order and each value resolved; a placeholder string becomes the
      variable's value; everything else, lists and their contents included,
      is returned as it is. */
  function Resolve(v: Value, env: Env): (r: Value)
    ensures r.Dict? <==> v.Dict?
    ensures v.Dict? ==> |r.entries| == |v.entries|
    ensures v.Dict? ==> forall i :: 0 <= i < |v.entries| ==> r.entries[i].0 == v.entries[i].0
    ensures v.Str? && IsPlaceholder(v.s) ==>
              r.Str? && "${" + PlaceholderName(v.s) + "}" == v.s
              && (PlaceholderName(v.s) in env ==> r.s == env[PlaceholderName(v.s)])
              && (PlaceholderName(v.s) !in env ==> r.s == "")
    ensures !v.Dict? && !(v.Str? && IsPlaceholder(v.s)) ==> r == v
  {
    match v
    case Dict(entries) =>
      Dict(seq(|entries|, i requires 0 <= i < |entries| => (entries[i].0, Resolve(entries[i].1, env))))
    case Str(s) =>
      if IsPlaceholder(s) then Str(Getenv(env, PlaceholderName(s))) else v
    case _ => v
  }

  /** The value reached from `v` by following entry indices through nested
      mappings, or `None` when the path leaves them. */
  function At(v: Value, path: seq<nat>): Option<Value>
    decreases |path|
  {
    if path == [] then Some(v)
    else if v.Dict? && path[0] < |v.entries| then At(v.entries[path[0]].1, path[1..])
    else None
  }

  /** Resolution reaches into nested mappings: every position of the
      input is a position of the result, a placeholder string there is
      replaced by its variable's value (or `""` when it is unset), and any
      other value that is not a mapping is left as it is. */
  lemma {:induction false} ResolveAt(v: Value, env: Env, path: seq<nat>)
    ensures At(Resolve(v, env), path).Some? <==> At(v, path).Some?
    ensures At(v, path).Some? ==> At(Resolve(v, env), path).value == Resolve(At(v, path).value, env)
    ensures At(v, path).Some? && At(v, path).value.Str? && IsPlaceholder(At(v, path).value.s) ==>
              At(Resolve(v, env), path) == Some(Str(Getenv(env, PlaceholderName(At(v, path).value.s))))
    ensures At(v, path).Some? && !At(v, path).value.Dict?
            && !(At(v, path).value.Str? && IsPlaceholder(At(v, path).value.s)) ==>
              At(Resolve(v, env), path) == At(v, path)
    decreases |path|
  {
    var r := Resolve(v, env);
    if path == [] {
    } else if v.Dict? && path[0] < |v.entries| {
      var k := path[0];
      assert r.entries[k].1 == Resolve(v.entries[k].1, env);
      ResolveAt(v.entries[k].1, env, path[1..]);
    } else {
      assert At(v, path) == None;
      assert At(r, path) == None;
    }
  }

  /** A placeholder one mapping down is substituted: with `X` set to
      `"v"`, `{k: "${X}"}` resolves to `{k: "v"}`. */
  lemma NestedPlaceholderResolved(k: Value, p: string, env: Env)
    requires p == "${X}" && env == map["X" := "v"]
    ensures Resolve(Dict([(k, Str(p))]), env) == Dict([(k, Str("v"))])
  {
    assert PlaceholderName(p) == "X";
  }

  /** No placeholder is left where resolution would substitute one: in a
      string reached through mappings only. */
  predicate Resolved(v: Value) {
    match v
    case Str(s) => !IsPlaceholder(s)
    case Dict(entries) => forall i :: 0 <= i < |entries| ==> Resolved(entries[i].1)
    case _ => true
  }

  /** The variables a value refers to, through mappings only. */
  function Names(v: Value): set<string> {
    match v
    case Str(s) => if IsPlaceholder(s) then {PlaceholderName(s)} else {}
    case Dict(entries) => set i, n | 0 <= i < |entries| && n in Names(entries[i].1) :: n
    case _ => {}
  }

  /** No environment value is itself a placeholder. */
  predicate PlainEnv(env: Env) {
    forall name :: name in env ==> !IsPlaceholder(env[name])
  }

  /** A value with nothing to substitute comes back unchanged. */
  lemma {:induction false} ResolveResolvedIsIdentity(v: Value, env: Env)
    requires Resolved(v)
    ensures Resolve(v, env) == v
  {
    match v
    case Dict(entries) =>
      forall i | 0 <= i < |entries| ensures Resolve(entries[i].1, env) == entries[i].1 {
        ResolveResolvedIsIdentity(entries[i].1, env);
      }
      assert Resolve(v, env).entries == entries;
    case Str(s) =>
    case _ =>
  }

  /** When no environment value looks like a placeholder, one pass removes
      every placeholder. */
  lemma {:induction false} ResolveLeavesNoPlaceholder(v: Value, env: Env)
    requires PlainEnv(env)
    ensures Resolved(Resolve(v, env))
  {
    match v
    case Dict(entries) =>
      forall i | 0 <= i < |entries| ensures Resolved(Resolve(v, env).entries[i].1) {
        ResolveLeavesNoPlaceholder(entries[i].1, env);
      }
    case Str(s) =>
    case _ =>
  }

  /** Resolution is idempotent under such an environment. */
  lemma ResolveIdempotent(v: Value, env: Env)
    requires PlainEnv(env)
    ensures Resolve(Resolve(v, env), env) == Resolve(v, env)
  {
    ResolveLeavesNoPlaceholder(v, env);
    ResolveResolvedIsIdentity(Resolve(v, env), env);
  }

  /** Only the variables the value names are read: two environments that
      agree on them give the same result. */
  lemma {:induction false} ResolveReadsOnlyNames(v: Value, env1: Env, env2: Env)
    requires forall n :: n in Names(v) ==> Getenv(env1, n) == Getenv(env2, n)
    ensures Resolve(v, env1) == Resolve(v, env2)
  {
    match v
    case Dict(entries) =>
      forall i | 0 <= i < |entries| ensures Resolve(entries[i].1, env1) == Resolve(entries[i].1, env2) {
        forall n | n in Names(entries[i].1) ensures Getenv(env1, n) == Getenv(env2, n) {
          assert n in Names(v);
        }
        ResolveReadsOnlyNames(entries[i].1, env1, env2);
      }
    case Str(s) =>
    case _ =>
  }
}
