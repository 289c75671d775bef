/**
 * The parsed check file: the value tree a YAML loader hands back (null, booleans,
 * integers, strings, lists and mappings with string keys), and the Python operations
 * the checker applies to it, each with the exception Python raises when the value
 * has the wrong shape.
 */
module Document {
  import opened Wrappers
  import opened Text

  /** A mapping keeps its entries in document order; a lookup takes the first entry with the key. */
  datatype Value =
    | Null
    | Bool(b: bool)
    | Int(i: int)
    | Str(s: string)
    | List(items: seq<Value>)
    | Map(entries: seq<(string, Value)>)

  /** The exceptions the checker can run into; `CommandFailed` is a command that could not be started at all. */
  datatype Fault = KeyError | TypeError | ValueError | AttributeError | IndexError | CommandFailed

  /** The keys of a mapping, in order. */
  function Keys(entries: seq<(string, Value)>): seq<string> {
    seq(|entries|, i requires 0 <= i < |entries| => entries[i].0)
  }

  /** The value of the first entry with `key`. */
  function Find(entries: seq<(string, Value)>, key: string): (r: Option<Value>)
    ensures r.Some? <==> key in Keys(entries)
    ensures r.Some? ==> exists i :: 0 <= i < |entries| && entries[i] == (key, r.value) && key !in Keys(entries[..i])
    decreases |entries|
  {
    if entries == [] then None
    else
      assert Keys(entries) == [entries[0].0] + Keys(entries[1..]);
      if entries[0].0 == key then
        assert Keys(entries[..0]) == [];
        Some(entries[0].1)
      else
        var r := Find(entries[1..], key);
        FirstShift(entries, key, r);
        r
  }

  /** The first entry with `key` in the tail is the first in the whole, when the head has another key. */
  lemma FirstShift(entries: seq<(string, Value)>, key: string, r: Option<Value>)
    requires entries != [] && entries[0].0 != key
    requires r.Some? ==> exists j :: 0 <= j < |entries[1..]| && entries[1..][j] == (key, r.value) && key !in Keys(entries[1..][..j])
    ensures r.Some? ==> exists i :: 0 <= i < |entries| && entries[i] == (key, r.value) && key !in Keys(entries[..i])
  {
    if r.Some? {
      var j :| 0 <= j < |entries[1..]| && entries[1..][j] == (key, r.value) && key !in Keys(entries[1..][..j]);
      assert entries[..j + 1] == [entries[0]] + entries[1..][..j];
      assert Keys(entries[..j + 1]) == [entries[0].0] + Keys(entries[1..][..j]);
      assert entries[j + 1] == (key, r.value);
    }
  }

  /** `v[key]` with a string key: only a mapping can be indexed by one. */
  function Index(v: Value, key: string): (r: Result<Value, Fault>)
    ensures r.Ok? <==> v.Map? && key in Keys(v.entries)
    ensures r.Err? ==> r.error == (if v.Map? then KeyError else TypeError)
  {
    if !v.Map? then Err(TypeError)
    else
      var x := Find(v.entries, key);
      if x.Some? then Ok(x.value) else Err(KeyError)
  }

  /** `needle` occurs in `hay` as a substring (Python's `in` on two strings): some window of `hay` is `needle`. */
  predicate Occurs(needle: string, hay: string)
    ensures Occurs(needle, hay) <==> exists i :: 0 <= i <= |hay| - |needle| && Window(hay, i, |needle|) == needle
    decreases |hay|
  {
    if hay == [] then
      assert Window(hay, 0, 0) == [];
      needle == []
    else
      WindowShift(needle, hay);
      StartsWith(hay, needle) || Occurs(needle, hay[1..])
  }

  /** The `n` characters of `s` from position `i`. */
  function Window(s: string, i: int, n: nat): string
    requires 0 <= i <= |s| - n
  {
    s[i..i + n]
  }

  /** A window of `hay` is at its front or is a window of its tail. */
  lemma WindowShift(needle: string, hay: string)
    requires hay != []
    ensures (exists i :: 0 <= i <= |hay| - |needle| && Window(hay, i, |needle|) == needle)
            <==> StartsWith(hay, needle) || exists j :: 0 <= j <= |hay[1..]| - |needle| && Window(hay[1..], j, |needle|) == needle
  {
    var n := |needle|;
    if exists i :: 0 <= i <= |hay| - n && Window(hay, i, n) == needle {
      var i :| 0 <= i <= |hay| - n && Window(hay, i, n) == needle;
      if i > 0 {
        assert Window(hay[1..], i - 1, n) == Window(hay, i, n);
      }
    }
    if exists j :: 0 <= j <= |hay[1..]| - n && Window(hay[1..], j, n) == needle {
      var j :| 0 <= j <= |hay[1..]| - n && Window(hay[1..], j, n) == needle;
      assert Window(hay, j + 1, n) == Window(hay[1..], j, n);
    }
    if StartsWith(hay, needle) {
      assert Window(hay, 0, n) == needle;
    }
  }

  /** `key in v`: a key of a mapping, an element of a list, a substring of a string. */
  function Contains(v: Value, key: string): (r: Result<bool, Fault>)
    ensures v.Map? ==> r == Ok(key in Keys(v.entries))
    ensures v.List? ==> r == Ok(Str(key) in v.items)
    ensures v.Str? ==> r == Ok(Occurs(key, v.s))
    ensures r.Err? <==> !(v.Map? || v.List? || v.Str?)
  {
    match v
    case Map(entries) => Ok(key in Keys(entries))
    case List(items) => Ok(Str(key) in items)
    case Str(s) => Ok(Occurs(key, s))
    case _ => Err(TypeError)
  }

  /** Python truthiness: null, `False`, zero and empty containers are false. */
  predicate Truthy(v: Value) {
    match v
    case Null => false
    case Bool(b) => b
    case Int(i) => i != 0
    case Str(s) => s != ""
    case List(items) => items != []
    case Map(entries) => entries != []
  }

  /** `v.get(key, None)`: only a mapping has `get`. */
  function Get(v: Value, key: string): (r: Result<Value, Fault>)
    ensures r.Err? <==> !v.Map?
    ensures v.Map? && key !in Keys(v.entries) ==> r == Ok(Null)
    ensures v.Map? && key in Keys(v.entries) ==> r == Index(v, key)
  {
    if !v.Map? then Err(AttributeError)
    else
      var x := Find(v.entries, key);
      if x.Some? then Ok(x.value) else Ok(Null)
  }

  /** `list(v)`: the keys of a mapping, the elements of a list, the characters of a string. */
  function Iterate(v: Value): (r: Result<seq<Value>, Fault>)
    ensures r.Err? <==> !(v.Map? || v.List? || v.Str?)
    ensures v.Map? ==> r.Ok? && |r.value| == |v.entries|
    ensures v.Map? ==> forall i :: 0 <= i < |v.entries| ==> r.value[i] == Str(v.entries[i].0)
    ensures v.List? ==> r == Ok(v.items)
    ensures v.Str? ==> r.Ok? && |r.value| == |v.s|
    ensures v.Str? ==> forall i :: 0 <= i < |v.s| ==> r.value[i] == Str([v.s[i]])
  {
    match v
    case Map(entries) => Ok(seq(|entries|, i requires 0 <= i < |entries| => Str(entries[i].0)))
    case List(items) => Ok(items)
    case Str(s) => Ok(seq(|s|, i requires 0 <= i < |s| => Str([s[i]])))
    case _ => Err(TypeError)
  }

  /**
   * The condition of a category lists exactly the key `platform` only when it is a
   * mapping with that single key, or a list holding just that string.
   */
  lemma OnlyPlatform(cond: Value)
    ensures Iterate(cond) == Ok([Str("platform")]) <==>
            || cond == List([Str("platform")])
            || (cond.Map? && |cond.entries| == 1 && cond.entries[0].0 == "platform")
  {
    if cond.Map? {
      var ks := Iterate(cond).value;
      if |cond.entries| == 1 {
        assert ks == [Str(cond.entries[0].0)];
      }
      if ks == [Str("platform")] {
        assert ks[0] == Str(cond.entries[0].0);
      }
    } else if cond.Str? {
      var cs := Iterate(cond).value;
      if |cs| == 1 {
        assert cs[0] == Str([cond.s[0]]);
        assert cs != [Str("platform")];
      }
    }
  }

  /** Walks a dotted path down from `item`: `item[p0][p1]...`, failing at the first step that fails. */
  function Lookup(item: Value, parts: seq<string>): (r: Result<Value, Fault>)
    ensures r.Err? ==> r.error == KeyError || r.error == TypeError
    decreases |parts|
  {
    if parts == [] then Ok(item)
    else
      match Index(item, parts[0])
      case Err(f) => Err(f)
      case Ok(v) => Lookup(v, parts[1..])
  }

  /** The substitution loop: `item` is replaced by `item[part]` for each part in turn. */
  method Substitute(data: Value, parts: seq<string>) returns (r: Result<Value, Fault>)
    ensures r == Lookup(data, parts)
  {
    var item := data;
    var i := 0;
    while i < |parts|
      invariant 0 <= i <= |parts|
      invariant Lookup(data, parts) == Lookup(item, parts[i..])
    {
      assert parts[i..][1..] == parts[i + 1..];
      var next := Index(item, parts[i]);
      if next.Err? {
        return Err(next.error);
      }
      item := next.value;
      i := i + 1;
    }
    return Ok(item);
  }

  /** Looking up a longer path is looking up its first part, then the rest from there. */
  lemma {:induction false} LookupAppend(item: Value, p: seq<string>, q: seq<string>)
    ensures Lookup(item, p + q) == match Lookup(item, p)
                                   case Err(f) => Err(f)
                                   case Ok(v) => Lookup(v, q)
    decreases |p|
  {
    if p == [] {
      assert p + q == q;
    } else {
      assert (p + q)[0] == p[0] && (p + q)[1..] == p[1..] + q;
      if Index(item, p[0]).Ok? {
        LookupAppend(Index(item, p[0]).value, p[1..], q);
      }
    }
  }

  /** A value placed at the end of a chain of single-key mappings. */
  function Nest(path: seq<string>, v: Value): Value
    decreases |path|
  {
    if path == [] then v else Map([(path[0], Nest(path[1..], v))])
  }

  /** Looking up the path a value was nested under gives that value back. */
  lemma {:induction false} LookupNest(path: seq<string>, v: Value)
    ensures Lookup(Nest(path, v), path) == Ok(v)
    decreases |path|
  {
    if path != [] {
      var inner := Nest(path[1..], v);
      assert Keys([(path[0], inner)]) == [path[0]];
      assert Index(Nest(path, v), path[0]) == Ok(inner);
      LookupNest(path[1..], v);
    }
  }

  /** A path that leaves the nesting at some step fails with `KeyError` (a missing key) there. */
  lemma {:induction false} LookupStray(path: seq<string>, v: Value, k: nat, wrong: string)
    requires k < |path| && wrong != path[k]
    ensures Lookup(Nest(path, v), path[..k] + [wrong]) == Err(KeyError)
    decreases k
  {
    var inner := Nest(path[1..], v);
    assert Keys([(path[0], inner)]) == [path[0]];
    if k == 0 {
      assert path[..0] + [wrong] == [wrong];
      assert Index(Nest(path, v), wrong) == Err(KeyError);
    } else {
      assert Index(Nest(path, v), path[0]) == Ok(inner);
      LookupStray(path[1..], v, k - 1, wrong);
      assert (path[..k] + [wrong])[1..] == path[1..][..k - 1] + [wrong];
    }
  }
}
