/** A loaded locale dictionary and the dotted key-path walk that
    `applyTranslations` performs over it (scripts.js, lines 92-100). */
module Locale {
  import opened Wrappers
  import Text

  /** A value read out of a parsed locale file. Strings and objects are kept;
      every other value (a number, a boolean, null, an array, or `undefined`
      for a missing property) is recorded only by its JavaScript truthiness. */
  datatype Value = Str(s: string) | Map(entries: map<string, Value>) | Other(truthy: bool)

  /** What a property access on a missing key yields. */
  const UNDEFINED: Value := Other(false)

  /** JavaScript truthiness: the empty string is falsy, every object is truthy. */
  predicate Truthy(v: Value) {
    match v
    case Str(s) => s != ""
    case Map(_) => true
    case Other(t) => t
  }

  /** `v[k]`: an own property of an object, and `undefined` otherwise. */
  function Member(v: Value, k: string): Value {
    if v.Map? && k in v.entries then v.entries[k] else UNDEFINED
  }

  /** The value `val` holds after `parts.forEach(k => { if (val) val = val[k]; })`
      started from `v`: the walk descends only while the current value is truthy,
      and once it meets a falsy value it keeps that value for the remaining keys. */
  function Resolve(v: Value, parts: seq<string>): (r: Value)
    ensures !Truthy(v) ==> r == v
    decreases |parts|
  {
    if parts == [] then v
    else if Truthy(v) then Resolve(Member(v, parts[0]), parts[1..])
    else Resolve(v, parts[1..])
  }

  /** An independent reading of a key path: strict descent through objects that
      own every key on the path, `None` as soon as one step is missing. */
  function Descend(v: Value, parts: seq<string>): Option<Value>
    decreases |parts|
  {
    if parts == [] then Some(v)
    else if v.Map? && parts[0] in v.entries then Descend(v.entries[parts[0]], parts[1..])
    else None
  }

  /** The lookup loop on `key.split(".")`, reassigning `val` key by key. */
  method LookupKey(dict: Value, key: string) returns (val: Value)
    ensures val == Resolve(dict, Text.Split(key, '.'))
  {
    var parts := Text.Split(key, '.');
    val := dict;
    var i := 0;
    while i < |parts|
      invariant 0 <= i <= |parts|
      invariant Resolve(val, parts[i..]) == Resolve(dict, parts)
    {
      assert parts[i..][1..] == parts[i + 1..];
      if Truthy(val) {
        val := Member(val, parts[i]);
      }
      i := i + 1;
    }
    assert parts[i..] == [];
  }

  /** The translation text that a key selects: `Some` exactly when the walk
      ends on a string (`typeof val === "string"`). Measured against the strict
      reading: a path that exists all the way down yields its string, or nothing
      when it ends on a non-string; a non-empty text comes only from such a path. */
  function LookupText(dict: Value, key: string): (r: Option<string>)
    ensures Descend(dict, Text.Split(key, '.')).Some? ==>
      r == (match Descend(dict, Text.Split(key, '.')).value case Str(s) => Some(s) case _ => None)
    ensures r.Some? && r.value != "" ==> Descend(dict, Text.Split(key, '.')) == Some(Str(r.value))
  {
    var parts := Text.Split(key, '.');
    var w := Resolve(dict, parts);
    var r := match w case Str(s) => Some(s) case _ => None;
    if Descend(dict, parts).Some? then ResolveFollowsPath(dict, parts, Descend(dict, parts).value); r
    else if r.Some? then ResolveStringIff(dict, parts, r.value); r
    else r
  }

  /** A path that exists all the way down is followed to its end, whatever
      value is found there. */
  lemma {:induction false} ResolveFollowsPath(v: Value, parts: seq<string>, w: Value)
    requires Descend(v, parts) == Some(w)
    ensures Resolve(v, parts) == w
    decreases |parts|
  {
    if parts != [] {
      ResolveFollowsPath(v.entries[parts[0]], parts[1..], w);
    }
  }

  /** When the walk ends on a string: either the whole path exists and leads to
      that string, or the string is empty and some prefix of the path (possibly
      the whole of it) already led to an empty string, where descent stopped. */
  lemma {:induction false} ResolveStringIff(v: Value, parts: seq<string>, s: string)
    ensures Resolve(v, parts) == Str(s) <==>
      (Descend(v, parts) == Some(Str(s)) ||
       (s == "" && exists j :: 0 <= j <= |parts| && Descend(v, parts[..j]) == Some(Str(""))))
    decreases |parts|
  {
    if parts == [] {
      assert parts[..0] == parts;
    } else if !Truthy(v) {
      assert parts[..0] == [];
      forall j | 0 < j <= |parts| ensures Descend(v, parts[..j]) == None {
        assert parts[..j][0] == parts[0];
      }
    } else if v.Map? && parts[0] in v.entries {
      var w := v.entries[parts[0]];
      var rest := parts[1..];
      ResolveStringIff(w, rest, s);
      assert Resolve(v, parts) == Resolve(w, rest);
      assert Descend(v, parts) == Descend(w, rest);
      forall j | 0 < j <= |parts|
        ensures Descend(v, parts[..j]) == Descend(w, rest[..j - 1])
      {
        assert parts[..j][0] == parts[0] && parts[..j][1..] == rest[..j - 1];
      }
      assert parts[..0] == [];
      if s == "" && exists j :: 0 <= j <= |rest| && Descend(w, rest[..j]) == Some(Str("")) {
        var j :| 0 <= j <= |rest| && Descend(w, rest[..j]) == Some(Str(""));
        assert Descend(v, parts[..j + 1]) == Some(Str(""));
      }
      if exists j :: 0 <= j <= |parts| && Descend(v, parts[..j]) == Some(Str("")) {
        var j :| 0 <= j <= |parts| && Descend(v, parts[..j]) == Some(Str(""));
        assert j > 0;
        assert Descend(w, rest[..j - 1]) == Some(Str(""));
      }
    } else {
      assert parts[..0] == [];
      forall j | 0 < j <= |parts| ensures Descend(v, parts[..j]) == None {
        assert parts[..j][0] == parts[0];
      }
    }
  }

  /** A non-empty translation is written only when the key's whole path exists
      and ends on that string. */
  lemma LookupNonEmptyIff(dict: Value, key: string, s: string)
    requires s != ""
    ensures LookupText(dict, key) == Some(s) <==> Descend(dict, Text.Split(key, '.')) == Some(Str(s))
  {
    ResolveStringIff(dict, Text.Split(key, '.'), s);
  }

  /** The falsy-stop quirk: when a prefix of the path leads to an empty string,
      descent stops there and the empty string is what gets written. */
  lemma EmptyPrefixStops(dict: Value, key: string, j: nat)
    requires j <= |Text.Split(key, '.')|
    requires Descend(dict, Text.Split(key, '.')[..j]) == Some(Str(""))
    ensures LookupText(dict, key) == Some("")
  {
    ResolveStringIff(dict, Text.Split(key, '.'), "");
  }
}
