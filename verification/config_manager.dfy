/** `ConfigManager` (core/config_manager.py): one merged configuration map, read
    once from `config/config.yaml` and the process environment, and cached in the
    class attribute `_config_cache`.

    The sources are parameters: the parsed YAML document (None when the file is
    missing or parses to something empty), the variables a `.env` file defines, and
    the variables the process already has. `load_dotenv()` does not override
    variables that are already set, so the process's own value wins. */
module ConfigManager {
  import opened Outcomes

  /** A configuration value: YAML scalars, or an environment string. */
  datatype Val = NoneVal | Str(s: string) | Int(i: int) | Bool(b: bool) | Other(tag: nat)

  type Config = map<string, Val>

  datatype Sources = Sources(yaml: Option<Config>, dotenv: map<string, string>, process: map<string, string>)

  /** `os.environ` after `load_dotenv()`. */
  function Environment(src: Sources): map<string, string>
  {
    src.dotenv + src.process
  }

  /** The environment's entries as configuration values. */
  function EnvValues(env: map<string, string>): (c: Config)
    ensures c.Keys == env.Keys
  {
    map k | k in env :: Str(env[k])
  }

  /** The map `load` builds: the YAML entries, then every environment variable
      assigned over them. */
  function Merged(src: Sources): Config
  {
    (if src.yaml.Some? then src.yaml.value else map[]) + EnvValues(Environment(src))
  }

  /** The merge, key by key: environment variables override YAML entries of the same
      name, with the process's value over the `.env` file's; YAML-only keys keep their
      YAML value; nothing else is present. */
  lemma MergedEntries(src: Sources, k: string)
    ensures k in Merged(src) <==> k in src.process || k in src.dotenv || (src.yaml.Some? && k in src.yaml.value)
    ensures k in src.process ==> Merged(src)[k] == Str(src.process[k])
    ensures k !in src.process && k in src.dotenv ==> Merged(src)[k] == Str(src.dotenv[k])
    ensures k !in src.process && k !in src.dotenv && src.yaml.Some? && k in src.yaml.value
            ==> Merged(src)[k] == src.yaml.value[k]
  {
  }

  /** What `load()` returns, the cache it leaves, and whether it read the sources. */
  datatype Loaded = Loaded(config: Config, cache: Config, reread: bool)

  /** `ConfigManager.load()` with `_config_cache` equal to `cache`. */
  function Load(cache: Config, src: Sources): (r: Loaded)
    ensures r.config == r.cache
    ensures |cache| > 0 ==> r == Loaded(cache, cache, false)
    ensures |cache| == 0 ==> r.reread && r.config == Merged(src)
  {
    if |cache| > 0 then Loaded(cache, cache, false)
    else
      var m := Merged(src);
      Loaded(m, m, true)
  }

  /** One-shot caching: once a load has produced a non-empty map, later loads return
      that same map without reading, whatever the sources have become. An empty
      result is not taken for a cache, so the next load reads again. */
  lemma LoadOnce(src1: Sources, src2: Sources)
    ensures var first := Load(map[], src1);
            var second := Load(first.cache, src2);
            (|Merged(src1)| > 0 ==> second.config == Merged(src1) && !second.reread)
            && (|Merged(src1)| == 0 ==> second.config == Merged(src2) && second.reread)
  {
  }

  /** What `get` returns and the cache it leaves. */
  datatype Got = Got(value: Val, cache: Config)

  /** The lookup of `get` on a loaded map: `config.get(key, default)`, the None rule,
      then `cast(value)` if it succeeds and the raw value if it raises. */
  function Lookup(config: Config, key: string, default: Val, cast: Val -> Option<Val>): Val
  {
    var value := if key in config then config[key] else default;
    if value == NoneVal then default
    else if cast(value).Some? then cast(value).value
    else value
  }

  /** `ConfigManager.get(key, default, cast)`. */
  function Get(cache: Config, src: Sources, key: string, default: Val, cast: Val -> Option<Val>): (g: Got)
    ensures g.cache == Load(cache, src).cache
  {
    var l := Load(cache, src);
    Got(Lookup(l.config, key, default, cast), l.cache)
  }

  /** The rules of `get`, against the loaded map `c`:
      the default comes back when the key is absent and the default is None, and
      when the stored value is None; a present value is cast, and kept raw when the
      cast fails (the default is not used then); an absent key with a default casts
      the default. */
  lemma GetRules(cache: Config, src: Sources, key: string, default: Val, cast: Val -> Option<Val>)
    ensures var c := Load(cache, src).config;
            var v := Get(cache, src, key, default, cast).value;
            (key !in c && default == NoneVal ==> v == NoneVal)
            && (key in c && c[key] == NoneVal ==> v == default)
            && (key in c && c[key] != NoneVal && cast(c[key]).Some? ==> v == cast(c[key]).value)
            && (key in c && c[key] != NoneVal && cast(c[key]).None? ==> v == c[key])
            && (key !in c && default != NoneVal ==> v == if cast(default).Some? then cast(default).value else default)
  {
  }

  /** On a first load, a variable set in the process wins over the YAML file even
      when its string cannot be cast: `get` then returns that string. */
  lemma EnvironmentWinsOverYaml(src: Sources, key: string, default: Val, cast: Val -> Option<Val>)
    requires key in src.process && cast(Str(src.process[key])).None?
    ensures Get(map[], src, key, default, cast).value == Str(src.process[key])
  {
    MergedEntries(src, key);
  }

  /** A key only the YAML file has keeps its YAML value, cast. */
  lemma YamlOnlyKeyKept(src: Sources, key: string, default: Val, cast: Val -> Option<Val>)
    requires src.yaml.Some? && key in src.yaml.value && key !in src.process && key !in src.dotenv
    requires src.yaml.value[key] != NoneVal && cast(src.yaml.value[key]).Some?
    ensures Get(map[], src, key, default, cast).value == cast(src.yaml.value[key]).value
  {
    MergedEntries(src, key);
  }
}
