/**
 * The application settings store: typed lookups over the loaded key/value properties,
 * the in-place override merge, and the public view sent to the browser.
 */
module Settings {
  import opened Wrappers
  import opened JavaLang

  /** A `java.util.Properties` holding only string keys and values. */
  type Properties = map<string, string>

  /** Server-only key removed from the public view. */
  const TEMP_DIR := "temp.dir"
  const USER_NAME := "user.name"
  const USER_LOGIN := "user.login"

  // ---------------------------------------------------------------- typed lookups

  /** `get(key)`: the stored value, or null (None) when the key is absent. */
  function Get(props: Properties, key: string): (r: Option<string>)
    ensures r.Some? <==> key in props
    ensures r.Some? ==> r.value == props[key]
  {
    if key in props then Some(props[key]) else None
  }

  /**
   * `get(key, defaultValue)`: the stored value unless it is absent or blank after `trim`,
   * in which case the default (which may itself be null, here None).
   */
  function GetOr(props: Properties, key: string, default: Option<string>): (r: Option<string>)
    ensures key !in props || IsBlank(props[key]) ==> r == default
    ensures key in props && !IsBlank(props[key]) ==> r == Some(props[key])
  {
    var value := if key in props then Some(props[key]) else default;
    match value
    case None => default
    case Some(v) => TrimEmptyIffBlank(v); if Trim(v) == "" then default else value
  }

  /** With a non-null default, `get(key, default)` never returns null nor a blank string. */
  lemma GetOrNeverBlank(props: Properties, key: string, default: string)
    requires !IsBlank(default)
    ensures GetOr(props, key, Some(default)).Some?
    ensures !IsBlank(GetOr(props, key, Some(default)).value)
  {
  }

  /**
   * `getInt(key, defaultValue)`: `Integer.parseInt` of the raw, untrimmed stored value;
   * the default when the key is absent or the value is not a decimal `int`.
   */
  function GetInt(props: Properties, key: string, default: int32): (r: int32)
    ensures key !in props ==> r == default
    ensures key in props ==> r == ParseInt(props[key]).GetOr(default)
    ensures r != default ==> key in props && ParseInt(props[key]) == Some(r)
  {
    var raw := Get(props, key);
    if raw.None? then default
    else match ParseInt(raw.value)
      case Some(n) => n
      case None => default
  }

  /** A value written with `Integer.toString` reads back as the same `int`. */
  lemma GetIntReadsBack(props: Properties, key: string, n: int32, default: int32)
    ensures GetInt(props[key := FormatInt(n)], key, default) == n
  {
    ParseFormatRoundTrip(n);
  }

  /** A stored value with a blank at either end is not parsed: the default wins. */
  lemma GetIntRejectsPadding(props: Properties, key: string, default: int32)
    requires key in props && props[key] != ""
    requires IsTrimmable(props[key][0]) || IsTrimmable(props[key][|props[key]| - 1])
    ensures GetInt(props, key, default) == default
  {
  }

  /**
   * `getBoolean(key, defaultValue)`: the default only when the key is absent; otherwise
   * `Boolean.parseBoolean` of the stored value, so any spelling other than "true" is false.
   */
  function GetBoolean(props: Properties, key: string, default: bool): (r: bool)
    ensures key !in props ==> r == default
    ensures key in props ==> (r <==> |props[key]| == 4 && ToLower(props[key]) == "true")
  {
    var raw := Get(props, key);
    if raw.None? then default else ParseBoolean(raw)
  }

  /** Once the key is present the default has no influence on `getBoolean`. */
  lemma GetBooleanIgnoresDefault(props: Properties, key: string)
    requires key in props
    ensures GetBoolean(props, key, true) == GetBoolean(props, key, false)
    ensures props[key] == "yes" ==> !GetBoolean(props, key, true)
  {
  }

  // ---------------------------------------------------------------- overrides

  /** `Properties.putAll`: every entry of `overrides` replaces or adds to `base`. */
  function Merge(base: Properties, overrides: Properties): (r: Properties)
    ensures r.Keys == base.Keys + overrides.Keys
    ensures forall k :: k in overrides ==> r[k] == overrides[k]
    ensures forall k :: k in base && k !in overrides ==> r[k] == base[k]
  {
    base + overrides
  }

  /** Applying the same overrides twice is the same as applying them once. */
  lemma MergeIdempotent(base: Properties, overrides: Properties)
    ensures Merge(Merge(base, overrides), overrides) == Merge(base, overrides)
  {
  }

  /** Two successive merges equal one merge of the second over the first: the last write wins. */
  lemma MergeLastWriteWins(base: Properties, first: Properties, second: Properties)
    ensures Merge(Merge(base, first), second) == Merge(base, Merge(first, second))
  {
  }

  // ---------------------------------------------------------------- public view

  /** The current user as found by the login lookup; a None field is a Java null. */
  datatype User = User(name: Option<string>, code: Option<string>)

  /**
   * The identity entries `toJSON` manages to put before any exception: none without a user
   * (no subject, no matching row, a failed lookup); `Hashtable.put` rejects a null value,
   * so a null name stops before either entry and a null code keeps only the name.
   */
  function IdentityEntries(identity: Option<User>): (r: Properties)
    ensures r.Keys <= {USER_NAME, USER_LOGIN}
    ensures USER_NAME in r <==> identity.Some? && identity.value.name.Some?
    ensures USER_NAME in r ==> r[USER_NAME] == identity.value.name.value
    ensures USER_LOGIN in r <==> USER_NAME in r && identity.value.code.Some?
    ensures USER_LOGIN in r ==> r[USER_LOGIN] == identity.value.code.value
  {
    match identity
    case None => map[]
    case Some(User(name, code)) =>
      if name.None? then map[]
      else if code.None? then map[USER_NAME := name.value]
      else map[USER_NAME := name.value, USER_LOGIN := code.value]
  }

  /**
   * The settings published by `toJSON`: identity entries overlaid by every configured entry,
   * without the server-only `temp.dir`.
   */
  function PublicView(identity: Option<User>, props: Properties): (r: Properties)
    ensures TEMP_DIR !in r
    ensures r.Keys == (props.Keys + IdentityEntries(identity).Keys) - {TEMP_DIR}
    ensures forall k :: k in props && k != TEMP_DIR ==> r[k] == props[k]
    ensures forall k :: k in IdentityEntries(identity) && k !in props ==> r[k] == IdentityEntries(identity)[k]
  {
    (IdentityEntries(identity) + props) - {TEMP_DIR}
  }

  /** `temp.dir` stays private whatever overrides were merged into the store. */
  lemma TempDirNeverPublished(identity: Option<User>, base: Properties, overrides: Properties)
    requires TEMP_DIR in overrides
    ensures TEMP_DIR in Merge(base, overrides)
    ensures TEMP_DIR !in PublicView(identity, Merge(base, overrides))
  {
  }

  /** The process-wide settings object; its property table is updated in place by `putAll`. */
  class AppSettings {
    var properties: Properties

    /** Construction from the already loaded `application.properties`. */
    constructor (loaded: Properties)
      ensures properties == loaded
    {
      properties := loaded;
    }

    /** `putAll(properties)`: merge the overrides into the store, in place. */
    method PutAll(overrides: Properties)
      modifies this
      ensures properties == Merge(old(properties), overrides)
      ensures forall k :: k in overrides ==> properties[k] == overrides[k]
      ensures forall k :: k !in overrides ==> Get(properties, k) == Get(old(properties), k)
    {
      properties := properties + overrides;
    }

    /** `toJSON()`, up to serialisation: the settings table it builds step by step. */
    method ToJSON(identity: Option<User>) returns (settings: Properties)
      ensures settings == PublicView(identity, properties)
    {
      settings := map[];
      if identity.Some? && identity.value.name.Some? {
        settings := settings[USER_NAME := identity.value.name.value];
        if identity.value.code.Some? {
          settings := settings[USER_LOGIN := identity.value.code.value];
        }
      }
      settings := settings + properties;
      settings := settings - {TEMP_DIR};
    }
  }
}
