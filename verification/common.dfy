/** Small shared vocabulary: an optional value (Python's `None` or a value),
    the JSON values the product feed carries, and string prefixes. */
module Common {

  /** A value that may be missing, as Python's `x | None`. */
  datatype Option<+T> = None | Some(value: T) {

    /** The value, or `default` when missing (Python's `d.get(key, default)`). */
    function GetOr(default: T): T {
      match this
      case Some(v) => v
      case None => default
    }
  }

  /** A decoded JSON value, as `json.load` hands it to the pipeline. */
  datatype Json =
    | JNull
    | JBool(b: bool)
    | JNum(n: real)
    | JStr(s: string)
    | JArray(items: seq<Json>)
    | JObject(fields: map<string, Json>)

  /** A JSON object such as a price entry `{"priceType": ..., "value": ...}`. */
  type Object = map<string, Json>

  /** `obj.get(key)`: `None` when the key is absent. */
  function Get(obj: Object, key: string): Option<Json> {
    if key in obj then Some(obj[key]) else None
  }

  /** `obj.get(key, default)`. */
  function GetOrDefault(obj: Object, key: string, default: Json): Json {
    Get(obj, key).GetOr(default)
  }

  /** Python's `s.startswith(prefix)`. */
  predicate StartsWith(s: string, prefix: string) {
    |prefix| <= |s| && s[..|prefix|] == prefix
  }

  /** Python's `s.endswith(suffix)`. */
  predicate EndsWith(s: string, suffix: string) {
    |suffix| <= |s| && s[|s| - |suffix|..] == suffix
  }

  /** The values `f` yields for the elements of `s`, in order, elements it
      maps to `None` dropped (a list comprehension with a filter). */
  function FilterMap<A, B>(s: seq<A>, f: A -> Option<B>): (r: seq<B>)
    ensures |r| <= |s|
    decreases |s|
  {
    if s == [] then []
    else (if f(s[0]).Some? then [f(s[0]).value] else []) + FilterMap(s[1..], f)
  }

  lemma {:induction false} FilterMapAppend<A, B>(a: seq<A>, b: seq<A>, f: A -> Option<B>)
    ensures FilterMap(a + b, f) == FilterMap(a, f) + FilterMap(b, f)
    decreases |a|
  {
    if a == [] {
      assert a + b == b;
    } else {
      var ab := a + b;
      assert ab[0] == a[0];
      assert ab[1..] == a[1..] + b;
      var head := if f(a[0]).Some? then [f(a[0]).value] else [];
      assert FilterMap(ab, f) == head + FilterMap(a[1..] + b, f);
      FilterMapAppend(a[1..], b, f);
      assert head + (FilterMap(a[1..], f) + FilterMap(b, f))
             == (head + FilterMap(a[1..], f)) + FilterMap(b, f);
    }
  }

  /** Every value in `FilterMap(s, f)` is `f` of some element, and `f` of every
      element that yields a value is in it. */
  lemma {:induction false} FilterMapMembers<A, B>(s: seq<A>, f: A -> Option<B>)
    ensures forall y :: y in FilterMap(s, f) ==> exists i :: 0 <= i < |s| && f(s[i]) == Some(y)
    ensures forall i :: 0 <= i < |s| && f(s[i]).Some? ==> f(s[i]).value in FilterMap(s, f)
    decreases |s|
  {
    if s != [] {
      FilterMapMembers(s[1..], f);
      forall y | y in FilterMap(s, f)
        ensures exists i :: 0 <= i < |s| && f(s[i]) == Some(y)
      {
        if f(s[0]) != Some(y) {
          var i :| 0 <= i < |s[1..]| && f(s[1..][i]) == Some(y);
          assert s[i + 1] == s[1..][i];
        }
      }
      forall i | 0 <= i < |s| && f(s[i]).Some?
        ensures f(s[i]).value in FilterMap(s, f)
      {
        if i > 0 { assert s[i] == s[1..][i - 1]; }
      }
    }
  }

  /** `r` can be obtained from `s` by deleting elements. */
  predicate IsSubsequence<T(==)>(r: seq<T>, s: seq<T>)
    decreases |s|
  {
    || r == []
    || (&& s != []
        && (|| IsSubsequence(r, s[..|s| - 1])
            || (r[|r| - 1] == s[|s| - 1] && IsSubsequence(r[..|r| - 1], s[..|s| - 1]))))
  }

  /** A subsequence is no longer than its source and draws its elements from it. */
  lemma {:induction false} SubsequenceFacts<T>(r: seq<T>, s: seq<T>)
    requires IsSubsequence(r, s)
    ensures |r| <= |s|
    ensures forall x :: x in r ==> x in s
    decreases |s|
  {
    if r != [] {
      var s' := s[..|s| - 1];
      if IsSubsequence(r, s') {
        SubsequenceFacts(r, s');
      } else {
        var r' := r[..|r| - 1];
        SubsequenceFacts(r', s');
        assert r == r' + [s[|s| - 1]];
        assert s == s' + [s[|s| - 1]];
      }
    }
  }
}
