// The settings file of src/infrastructure/config_store.py: a JSON object held in memory as
// `config` and written back whole after each change. The file is a field of the store.
module ConfigStore {
  import opened Common
  import opened Json
  import opened Strings

  /** What the configuration file holds; `Corrupt` is one `json.load` rejects. */
  datatype ConfigFile =
    | Missing
    | Corrupt
    | Stored(fields: map<string, Json>)

  /** `_load_config`: the stored object, or `{}` for a missing or corrupt file. */
  function LoadConfig(f: ConfigFile): (c: map<string, Json>)
    ensures f.Stored? ==> c == f.fields
    ensures !f.Stored? ==> c == map[]
  {
    if f.Stored? then f.fields else map[]
  }

  /** `name in value` as Python evaluates it for the value stored under "installations". */
  function Holds(value: Json, name: string): (r: Result<bool>)
    ensures value.JObj? ==> r == Ok(name in value.fields)
    ensures value.JArr? ==> r == Ok(JStr(name) in value.items)
    ensures value.JStr? ==> r == Ok(Contains(value.s, name))
    ensures (value.JNull? || value.JBool? || value.JInt?) ==> r.Err? && r.error.kind == TypeError
  {
    match value
    case JObj(fields) => Ok(name in fields)
    case JArr(items) => Ok(JStr(name) in items)
    case JStr(s) => Ok(Contains(s, name))
    case _ => Fail(TypeError, "argument of type is not iterable")
  }

  /** The last-profile record `set_last_selected_profile` stores. */
  function ProfileChoice(installation: string, profile: string): (j: Json)
    ensures j.JObj? && j.fields.Keys == {"installation", "profile"}
    ensures j.fields["installation"] == JStr(installation) && j.fields["profile"] == JStr(profile)
  {
    JObj(map["installation" := JStr(installation), "profile" := JStr(profile)])
  }

  class ConfigStore {
    var config: map<string, Json>
    var disk: ConfigFile

    /** The store over a file with the given content; making the directory is left out. */
    constructor (disk: ConfigFile)
      ensures config == LoadConfig(disk) && this.disk == disk
    {
      config := LoadConfig(disk);
      this.disk := disk;
    }

    /** `_save_config`; write errors are not modelled. */
    method SaveConfig() returns (ok: bool)
      modifies this
      ensures ok && disk == Stored(config) && config == old(config)
    {
      disk := Stored(config);
      return true;
    }

    /** `get(key, default)`. */
    function Get(key: string, default: Json): (v: Json)
      reads this
      ensures key in config ==> v == config[key]
      ensures key !in config ==> v == default
    {
      if key in config then config[key] else default
    }

    /** `get_section(section)`: the value, or `{}`. */
    function GetSection(section: string): (v: Json)
      reads this
      ensures section !in config ==> v == JObj(map[])
      ensures section in config ==> v == config[section]
    {
      Get(section, JObj(map[]))
    }

    /** `get_last_selected_profile`: the stored record, or `None`. */
    function GetLastSelectedProfile(): (v: Json)
      reads this
      ensures "last_profile" !in config ==> v == JNull
      ensures "last_profile" in config ==> v == config["last_profile"]
    {
      Get("last_profile", JNull)
    }

    /** `get_installations`: the value under "installations", or `{}`. */
    function GetInstallations(): (v: Json)
      reads this
      ensures "installations" !in config ==> v == JObj(map[])
      ensures "installations" in config ==> v == config["installations"]
    {
      Get("installations", JObj(map[]))
    }

    /** `set(key, value)`: the key is bound, every other key is kept, and the file is rewritten. */
    method Set(key: string, value: Json) returns (ok: bool)
      modifies this
      ensures config == old(config)[key := value]
      ensures Get(key, JNull) == value
      ensures forall k :: k != key ==> (k in config <==> k in old(config))
      ensures forall k :: k != key && k in config ==> config[k] == old(config)[k]
      ensures ok && disk == Stored(config)
    {
      config := config[key := value];
      ok := SaveConfig();
    }

    /** `set_section(section, values)`. */
    method SetSection(section: string, values: Json) returns (ok: bool)
      modifies this
      ensures config == old(config)[section := values]
      ensures ok && disk == Stored(config)
    {
      ok := Set(section, values);
    }

    /** `remove(key)`: only a present key is deleted and saved; otherwise nothing is written. */
    method Remove(key: string) returns (ok: bool)
      modifies this
      ensures key in old(config) ==> config == old(config) - {key} && disk == Stored(config)
      ensures key !in old(config) ==> config == old(config) && disk == old(disk)
      ensures key !in config && ok
    {
      if key in config {
        config := config - {key};
        ok := SaveConfig();
      } else {
        ok := true;
      }
    }

    /** `set_last_selected_profile`: afterwards `get_last_selected_profile` returns the pair. */
    method SetLastSelectedProfile(installation: string, profile: string) returns (ok: bool)
      modifies this
      ensures config == old(config)["last_profile" := ProfileChoice(installation, profile)]
      ensures GetLastSelectedProfile() == ProfileChoice(installation, profile)
      ensures ok && disk == Stored(config)
    {
      ok := Set("last_profile", ProfileChoice(installation, profile));
    }

    /**
     * `add_installation(name, path)`: `name` is bound to `path` inside the "installations"
     * object and the other names stay; a stored value that is not an object makes the item
     * assignment raise `TypeError` before anything changes.
     */
    method AddInstallation(name: string, path: string) returns (r: Result<bool>)
      modifies this
      ensures !GetInstallations().JObj? ==> r.Err? && r.error.kind == TypeError
      ensures old(GetInstallations()).JObj? ==>
                r == Ok(true) && config == old(config)["installations" := JObj(old(GetInstallations()).fields[name := JStr(path)])]
                && disk == Stored(config)
      ensures !old(GetInstallations()).JObj? ==> config == old(config) && disk == old(disk)
    {
      var installations := GetInstallations();
      if !installations.JObj? {
        return Fail(TypeError, "object does not support item assignment");
      }
      var ok := Set("installations", JObj(installations.fields[name := JStr(path)]));
      return Ok(ok);
    }

    /**
     * `remove_installation(name)`: only a present name is deleted and saved. For a list or a
     * string the membership test is Python's: a name they do not hold returns `True` and changes
     * nothing, and deleting one they hold raises `TypeError`.
     */
    method RemoveInstallation(name: string) returns (r: Result<bool>)
      modifies this
      ensures old(GetInstallations()).JObj? && name in old(GetInstallations()).fields ==>
                r == Ok(true) && config == old(config)["installations" := JObj(old(GetInstallations()).fields - {name})]
                && disk == Stored(config)
      ensures old(GetInstallations()).JObj? && name !in old(GetInstallations()).fields ==>
                r == Ok(true) && config == old(config) && disk == old(disk)
      ensures r.Err? ==> r.error.kind == TypeError && config == old(config) && disk == old(disk)
      ensures r == Ok(true) || r.Err?
      ensures !old(GetInstallations()).JObj? ==> config == old(config) && disk == old(disk)
      ensures !old(GetInstallations()).JObj? ==> (r == Ok(true) <==> Holds(old(GetInstallations()), name) == Ok(false))
    {
      var installations := GetInstallations();
      var held := Holds(installations, name);
      if held.Err? {
        return Err(held.error);
      }
      if !held.value {
        return Ok(true);
      }
      if !installations.JObj? {
        return Fail(TypeError, "object doesn't support item deletion");
      }
      var ok := Set("installations", JObj(installations.fields - {name}));
      return Ok(ok);
    }
  }
}
