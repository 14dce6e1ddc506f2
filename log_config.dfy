/**
  Configuration of the log analyser (01/src/log_analyzer/analyzer.py):
  `load_config`, which lays a JSON object over the defaults, and the typed
  getters `get_int_value`, `get_float_value` and `get_str_value`.
*/
module LogConfig {
  import opened Base
  import opened Dicts
  import opened Json

  /**
    The configuration file as `load_config` finds it: missing, not valid
    JSON, or decoded to a value (reading and decoding are not modelled).
  */
  datatype ConfigFile = Missing | Unparsable | Decoded(value: Value)

  /** `json.loads` gives a dict with each key once. */
  predicate WellDecoded(file: ConfigFile)
  {
    file.Decoded? && file.value.Object? ==> DistinctKeys(file.value.members)
  }

  /**
    `load_config`: FileNotFoundError for a missing file, ValueError for bad
    JSON or a value that is not an object; otherwise every default key and
    every loaded key, the loaded value winning.
  */
  function LoadConfig(path: string, file: ConfigFile, defaults: Dict<string, Value>): (r: Result<Dict<string, Value>, Exception>)
    requires WellDecoded(file)
    ensures file.Missing? <==> r.Failure? && r.error.FileNotFoundError?
    ensures r.Failure? && r.error.ValueError? <==> file.Unparsable? || (file.Decoded? && !file.value.Object?)
    ensures r.Success? ==>
              && file.Decoded? && file.value.Object?
              && KeySet(r.value) == KeySet(defaults) + KeySet(file.value.members)
              && (forall k :: k in KeySet(file.value.members) ==> Get(r.value, k) == Get(file.value.members, k))
              && (forall k :: k !in KeySet(file.value.members) ==> Get(r.value, k) == Get(defaults, k))
  {
    match file
    case Missing => Failure(FileNotFoundError("Config not found: " + path))
    case Unparsable => Failure(ValueError("Config parse error: " + path))
    case Decoded(loaded) =>
      if !loaded.Object? then Failure(ValueError("Config must be a JSON object"))
      else Success(Update(defaults, loaded.members))
  }

  /** `config[key]`: KeyError for a missing key. */
  function Lookup(config: Dict<string, Value>, key: string): (r: Result<Value, Exception>)
    ensures r.Success? <==> key in KeySet(config)
    ensures r.Success? ==> Get(config, key) == Some(r.value)
    ensures r.Failure? ==> r.error == KeyError(key)
  {
    match Get(config, key)
    case None => Failure(KeyError(key))
    case Some(v) => Success(v)
  }

  /** `get_int_value`: an int that is not a bool, else ValueError. */
  function GetInt(config: Dict<string, Value>, key: string): (r: Result<int, Exception>)
    ensures r.Success? <==> exists i :: Get(config, key) == Some(Int(i))
    ensures r.Success? ==> Get(config, key) == Some(Int(r.value))
    ensures r.Failure? && key in KeySet(config) ==> r.error.ValueError?
    ensures key !in KeySet(config) ==> r == Failure(KeyError(key))
  {
    match Lookup(config, key)
    case Failure(e) => Failure(e)
    case Success(v) =>
      if v.Int? then Success(v.i) else Failure(ValueError("Config '" + key + "' must be an int"))
  }

  /** `get_float_value`: an int or float that is not a bool, as its exact real value (no double rounding), else ValueError. */
  function GetFloat(config: Dict<string, Value>, key: string): (r: Result<real, Exception>)
    ensures r.Success? <==> (exists i :: Get(config, key) == Some(Int(i))) || (exists x :: Get(config, key) == Some(Float(x)))
    ensures r.Success? ==>
      (Get(config, key) == Some(Float(r.value))
       || (Get(config, key) == Some(Int(r.value.Floor)) && r.value == r.value.Floor as real))
    ensures r.Failure? && key in KeySet(config) ==> r.error.ValueError?
    ensures key !in KeySet(config) ==> r == Failure(KeyError(key))
  {
    match Lookup(config, key)
    case Failure(e) => Failure(e)
    case Success(v) =>
      if v.Int? then Success(v.i as real)
      else if v.Float? then Success(v.r)
      else Failure(ValueError("Config '" + key + "' must be a float"))
  }

  /** `get_str_value`: a string, else ValueError. */
  function GetStr(config: Dict<string, Value>, key: string): (r: Result<string, Exception>)
    ensures r.Success? <==> exists s :: Get(config, key) == Some(Str(s))
    ensures r.Success? ==> Get(config, key) == Some(Str(r.value))
    ensures r.Failure? && key in KeySet(config) ==> r.error.ValueError?
    ensures key !in KeySet(config) ==> r == Failure(KeyError(key))
  {
    match Lookup(config, key)
    case Failure(e) => Failure(e)
    case Success(v) =>
      if v.Str? then Success(v.s) else Failure(ValueError("Config '" + key + "' must be a string"))
  }

  /** A boolean setting is refused by every getter: Python's bool is an int, but the getters reject it. */
  lemma BoolRefused(config: Dict<string, Value>, key: string, b: bool)
    requires Get(config, key) == Some(Bool(b))
    ensures GetInt(config, key).Failure? && GetFloat(config, key).Failure? && GetStr(config, key).Failure?
    ensures GetInt(config, key).error.ValueError? && GetFloat(config, key).error.ValueError?
  {
  }

  /** A loaded setting overrides the default, and a default the file leaves out survives. */
  lemma LoadedOverridesDefault(path: string, file: ConfigFile, defaults: Dict<string, Value>, key: string)
    requires WellDecoded(file) && LoadConfig(path, file, defaults).Success?
    ensures var merged := LoadConfig(path, file, defaults).value;
      key in KeySet(defaults) ==> key in KeySet(merged)
    ensures var merged := LoadConfig(path, file, defaults).value;
      GetInt(merged, key) == (if key in KeySet(file.value.members) then GetInt(file.value.members, key) else GetInt(defaults, key))
  {
  }
}
