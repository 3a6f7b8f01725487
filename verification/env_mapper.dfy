/**
 * Model of env/mapper.go: resolution of a `NAME:default` placeholder against
 * the process environment. The environment, which the source reads with
 * `os.LookupEnv`, is a map parameter here.
 */
module Env {
  import opened Results
  import opened StringUtil

  /** The variable name and default value of a placeholder: split at the first `:` (SplitN with n = 2). */
  function ParsePlaceholder(placeholderName: string): (nd: (string, string))
    ensures ':' !in placeholderName ==> nd == (placeholderName, "")
    ensures ':' in placeholderName ==> placeholderName == nd.0 + ":" + nd.1 && ':' !in nd.0
  {
    var split := SplitN(placeholderName, ":", 2);
    SplitAtFirstColon(placeholderName);
    if |split| == 2 then (split[0], split[1]) else (placeholderName, "")
  }

  /** `SplitN(p, ":", 2)` has two pieces exactly when `p` holds a colon, and they surround the first colon. */
  lemma SplitAtFirstColon(p: string)
    ensures var split := SplitN(p, ":", 2);
            (':' !in p ==> split == [p]) &&
            (':' in p ==> |split| == 2 && p == split[0] + ":" + split[1] && ':' !in split[0])
  {
    if ':' !in p {
      SplitNCharNone(p, ':', 2);
    } else {
      var i := FirstOccurrence(p, ':');
      assert p == p[..i] + ":" + p[i + 1..];
      SplitNCharHead(p[..i], ':', p[i + 1..], 2);
    }
  }

  /**
   * A variable `os.LookupEnv` reports as set: Go refuses the empty name
   * outright, and no variable name contains `=` (the environment table is
   * keyed by the text before the first `=` of each entry).
   */
  predicate IsSet(env: map<string, string>, name: string) {
    name != "" && '=' !in name && name in env
  }

  /** Go `os.LookupEnv`: the value of a variable that is set, nothing otherwise. */
  function LookupEnv(env: map<string, string>, name: string): (r: Option<string>)
    ensures r.Some? <==> IsSet(env, name)
    ensures r.Some? ==> r.value == env[name]
    ensures name == "" ==> r == None
  {
    if name == "" || '=' in name || name !in env then None else Some(env[name])
  }

  /**
   * GetMapper: the value of the named variable when it is set (even to ""),
   * otherwise the default.
   */
  function GetMapper(placeholderName: string, env: map<string, string>): (r: string)
    ensures var (name, defValue) := ParsePlaceholder(placeholderName);
            (IsSet(env, name) ==> r == env[name]) && (!IsSet(env, name) ==> r == defValue)
  {
    var (name, defValue) := ParsePlaceholder(placeholderName);
    match LookupEnv(env, name)
    case Some(val) => val
    case None => defValue
  }

  /** Splitting `name:default` recovers exactly that name and default, even when the default holds colons. */
  lemma ParsePlaceholderInverse(name: string, defValue: string)
    requires ':' !in name
    ensures ParsePlaceholder(name + ":" + defValue) == (name, defValue)
  {
    var p := name + ":" + defValue;
    assert p[|name|] == ':';
    var nd := ParsePlaceholder(p);
    assert p == nd.0 + ":" + nd.1 && ':' !in nd.0;
    assert forall k :: 0 <= k < |name| ==> p[k] == name[k];
    assert forall k :: 0 <= k < |nd.0| ==> p[k] == nd.0[k];
    assert p[|nd.0|] == ':';
    assert |nd.0| == |name|;
    assert nd.0 == p[..|name|] == name;
    assert nd.1 == p[|name| + 1..] == defValue;
  }

  /** A set variable wins over the default; an unset one yields the default. */
  lemma GetMapperWithDefault(name: string, defValue: string, env: map<string, string>)
    requires ':' !in name
    ensures GetMapper(name + ":" + defValue, env) == if IsSet(env, name) then env[name] else defValue
  {
    ParsePlaceholderInverse(name, defValue);
  }

  /** A placeholder with an empty name, `:default`, always yields its default, whatever the environment holds. */
  lemma GetMapperEmptyName(defValue: string, env: map<string, string>)
    ensures GetMapper(":" + defValue, env) == defValue
  {
    ParsePlaceholderInverse("", defValue);
    assert "" + ":" + defValue == ":" + defValue;
  }

  /** Without a colon the whole placeholder is the name and the default is empty. */
  lemma GetMapperWithoutDefault(name: string, env: map<string, string>)
    requires ':' !in name
    ensures GetMapper(name, env) == if IsSet(env, name) then env[name] else ""
    ensures name == "" ==> GetMapper(name, env) == ""
  {
  }
}
