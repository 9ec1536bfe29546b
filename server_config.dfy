/** The settings update of the server (app.py: api_update_config). The stored configuration
    and the request body are JSON objects; the result is the object that is saved. */
module ServerConfig {
  import opened Wrappers

  datatype Json =
    | JNull | JBool(b: bool) | JNumber(n: int) | JString(s: string)
    | JArray(items: seq<Json>) | JObject(fields: map<string, Json>)

  type Config = map<string, Json>

  /** `data['preload_buffer']` raised KeyError; nothing is saved. */
  datatype ConfigError = MissingKey(key: string)

  /** The keys a request may overwrite. */
  const Settings: set<string> := {"base_paths", "current_base_path", "reading_direction", "preload_buffer"}

  /** The stored object with `keys` taken from the request, everything else kept. */
  function Merge(config: Config, data: Config, keys: set<string>): (r: Config)
    requires keys <= data.Keys
    ensures r.Keys == config.Keys + keys
    ensures forall k :: k in keys ==> r[k] == data[k]
    ensures forall k :: k in config && k !in keys ==> r[k] == config[k]
  {
    map k | k in config.Keys + keys :: if k in keys then data[k] else config[k]
  }

  /** `{key}` when the request carries `key`. */
  function Present(data: Config, key: string): set<string> {
    if key in data then {key} else {}
  }

  /** The keys the code copies: each of the first three when present, and `preload_buffer`
      whenever `reading_direction` is present. */
  function AsWrittenKeys(data: Config): set<string> {
    Present(data, "base_paths") + Present(data, "current_base_path") + Present(data, "reading_direction")
    + (if "reading_direction" in data then {"preload_buffer"} else {})
  }

  /** The keys a partial update is meant to copy: every setting that is present. */
  function IntendedKeys(data: Config): (r: set<string>)
    ensures r == set k | k in Settings && k in data
  {
    Present(data, "base_paths") + Present(data, "current_base_path") + Present(data, "reading_direction")
    + Present(data, "preload_buffer")
  }

  /** One `if key in data: config[key] = data[key]` line. */
  function CopyKey(config: Config, data: Config, key: string): (r: Config)
    ensures r.Keys == config.Keys + (if key in data then {key} else {})
    ensures forall k :: k in r ==> r[k] == if k == key && key in data then data[key] else config[k]
  {
    if key in data then config[key := data[key]] else config
  }

  /** api_update_config as written: key by key, with line 284 testing `reading_direction`
      before copying `preload_buffer`. */
  function UpdateConfig(config: Config, data: Config): (r: Result<Config, ConfigError>)
    ensures r.Err? <==> "reading_direction" in data && "preload_buffer" !in data
  {
    var c := CopyKey(CopyKey(CopyKey(config, data, "base_paths"), data, "current_base_path"), data, "reading_direction");
    if "reading_direction" in data then
      if "preload_buffer" in data then Ok(c["preload_buffer" := data["preload_buffer"]])
      else Err(MissingKey("preload_buffer"))
    else Ok(c)
  }

  /** The update with line 284 testing `preload_buffer`, as the other three lines do. */
  function UpdateConfigIntended(config: Config, data: Config): (r: Config)
    ensures r.Keys == config.Keys + IntendedKeys(data)
  {
    CopyKey(CopyKey(CopyKey(CopyKey(config, data, "base_paths"), data, "current_base_path"), data, "reading_direction"), data, "preload_buffer")
  }

  lemma MergeNothing(config: Config, data: Config)
    ensures Merge(config, data, {}) == config
  {
  }

  /** Copying one more key of the request extends the merge by that key. */
  lemma MergeCopy(config: Config, data: Config, keys: set<string>, key: string)
    requires keys <= data.Keys
    ensures keys + Present(data, key) <= data.Keys
    ensures CopyKey(Merge(config, data, keys), data, key) == Merge(config, data, keys + Present(data, key))
  {
    var l := CopyKey(Merge(config, data, keys), data, key);
    var m := Merge(config, data, keys + Present(data, key));
    assert l.Keys == m.Keys;
    forall k | k in l ensures l[k] == m[k] {
    }
  }

  /** A successful update as written stores exactly the keys the code copies. */
  lemma UpdateConfigMerges(config: Config, data: Config)
    ensures AsWrittenKeys(data) <= data.Keys ==>
      UpdateConfig(config, data).Ok? && UpdateConfig(config, data).value == Merge(config, data, AsWrittenKeys(data))
    ensures !(AsWrittenKeys(data) <= data.Keys) ==> UpdateConfig(config, data).Err?
  {
    var k1 := Present(data, "base_paths");
    var k2 := k1 + Present(data, "current_base_path");
    var k3 := k2 + Present(data, "reading_direction");
    MergeNothing(config, data);
    MergeCopy(config, data, {}, "base_paths");
    assert {} + k1 == k1;
    MergeCopy(config, data, k1, "current_base_path");
    MergeCopy(config, data, k2, "reading_direction");
    if "reading_direction" in data && "preload_buffer" in data {
      MergeCopy(config, data, k3, "preload_buffer");
    }
  }

  /** The corrected update stores exactly the settings present in the request. */
  lemma UpdateConfigIntendedMerges(config: Config, data: Config)
    ensures IntendedKeys(data) <= data.Keys
    ensures UpdateConfigIntended(config, data) == Merge(config, data, IntendedKeys(data))
  {
    var k1 := Present(data, "base_paths");
    var k2 := k1 + Present(data, "current_base_path");
    var k3 := k2 + Present(data, "reading_direction");
    MergeNothing(config, data);
    MergeCopy(config, data, {}, "base_paths");
    assert {} + k1 == k1;
    MergeCopy(config, data, k1, "current_base_path");
    MergeCopy(config, data, k2, "reading_direction");
    MergeCopy(config, data, k3, "preload_buffer");
  }

  /** Only settings present in the request change; every other stored key is kept and no
      other request key is stored. */
  lemma IntendedOnlyPresentKeys(config: Config, data: Config)
    ensures var r := UpdateConfigIntended(config, data);
      && (forall k :: k in Settings && k in data ==> k in r && r[k] == data[k])
      && (forall k :: k !in Settings || k !in data ==> (k in r <==> k in config))
      && (forall k :: k in config && (k !in Settings || k !in data) ==> r[k] == config[k])
  {
    UpdateConfigIntendedMerges(config, data);
  }

  /** When a request carries both `reading_direction` and `preload_buffer`, or neither, the
      code does what was intended. */
  lemma AsWrittenAgreesWhenPaired(config: Config, data: Config)
    requires "reading_direction" in data <==> "preload_buffer" in data
    ensures UpdateConfig(config, data) == Ok(UpdateConfigIntended(config, data))
  {
    assert AsWrittenKeys(data) == IntendedKeys(data);
    UpdateConfigMerges(config, data);
    UpdateConfigIntendedMerges(config, data);
  }

  /** A request changing only the prefetch buffer is accepted, but the buffer is not stored. */
  lemma PreloadOnlyRequestIsLost()
    ensures var config := map["preload_buffer" := JNumber(3)];
      var data := map["preload_buffer" := JNumber(5)];
      && UpdateConfig(config, data) == Ok(config)
      && UpdateConfigIntended(config, data)["preload_buffer"] == JNumber(5)
  {
  }

  /** A request with a reading direction but no buffer fails, so nothing is saved. */
  lemma DirectionWithoutBufferFails()
    ensures UpdateConfig(map[], map["reading_direction" := JString("right_to_left")]) == Err(MissingKey("preload_buffer"))
  {
  }
}
