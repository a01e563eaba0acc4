/**
  The parts of the Fetch API the worker touches: a response with its status,
  its headers and its body, and the Headers object whose names are matched
  without regard to ASCII case.  The model keys each header by its
  lower-cased name, the form the Fetch standard compares names in and lists
  them under; `get` and `set` then observe the same values as under the
  standard's case-insensitive matching.
 */
module Fetch {
  import opened Wrappers
  import Html

  /** ASCII lower-casing of one character, as header-name normalisation does it. */
  function LowerChar(c: char): (d: char)
    ensures !('A' <= d <= 'Z')
    ensures 'A' <= c <= 'Z' ==> d as int == c as int + 32
    ensures !('A' <= c <= 'Z') ==> d == c
  {
    if 'A' <= c <= 'Z' then (c as int + 32) as char else c
  }

  /** ASCII lower-casing of a header name; every other character is kept. */
  function Lower(s: string): (r: string)
    ensures |r| == |s|
    ensures forall i | 0 <= i < |s| :: r[i] == LowerChar(s[i])
  {
    seq(|s|, i requires 0 <= i < |s| => LowerChar(s[i]))
  }

  predicate IsLower(s: string)
  {
    forall i | 0 <= i < |s| :: !('A' <= s[i] <= 'Z')
  }

  /** Lower-casing is idempotent, and leaves names that are already lower-case alone. */
  lemma LowerIdempotent(s: string)
    ensures IsLower(Lower(s))
    ensures Lower(Lower(s)) == Lower(s)
    ensures IsLower(s) ==> Lower(s) == s
  {
  }

  predicate ValidHeaders(h: map<string, string>)
  {
    forall name | name in h :: IsLower(name)
  }

  /** A header list, keyed by lower-case name: a Headers object never holds any other key. */
  type HeaderList = h: map<string, string> | ValidHeaders(h) witness map[]

  /** Two names that read the same once lower-cased name the same header; a stored name is its own lower-cased form. */
  lemma StoredNames(h: HeaderList, name: string)
    ensures forall k | k in h :: (Lower(k) == Lower(name) <==> k == Lower(name))
    ensures Lower(name) in h ==> Lower(Lower(name)) == Lower(name)
  {
    LowerIdempotent(name);
    forall k | k in h
      ensures Lower(k) == Lower(name) <==> k == Lower(name)
    {
      LowerIdempotent(k);
    }
  }

  /**
    `Headers.get(name)`: the value of the stored header whose name matches
    `name` without regard to ASCII case, or null when none does.
   */
  function Get(h: HeaderList, name: string): (r: Option<string>)
    ensures r.Some? <==> exists k | k in h :: Lower(k) == Lower(name)
    ensures forall k | k in h && Lower(k) == Lower(name) :: r == Some(h[k])
  {
    StoredNames(h, name);
    if Lower(name) in h then Some(h[Lower(name)]) else None
  }

  /** `Headers.set(name, value)`: replace any value stored under the lower-cased name. */
  function Set(h: HeaderList, name: string, value: string): (r: HeaderList)
    ensures r.Keys == h.Keys + {Lower(name)}
    ensures forall k | k in r && Lower(k) == Lower(name) :: r[k] == value
    ensures forall k | k in h && k != Lower(name) :: r[k] == h[k]
  {
    LowerIdempotent(name);
    var r: HeaderList := h[Lower(name) := value];
    StoredNames(r, name);
    r
  }

  /** After `set(n, v)`, `get(m)` is v when m names the same header as n, and what it was before otherwise. */
  lemma GetSet(h: HeaderList, n: string, v: string, m: string)
    ensures Get(Set(h, n, v), m) == if Lower(m) == Lower(n) then Some(v) else Get(h, m)
  {
  }

  /**
    A response.  The body is the HTML token stream of Html.Node; a body that
    is not HTML is carried as it came, and nothing looks inside it.
   */
  datatype Response = Response(status: int, statusText: string, headers: HeaderList, body: seq<Html.Node>)

  /** A Headers object: the header list of a response that the worker changes in place. */
  class Headers {
    var list: HeaderList

    constructor (init: HeaderList)
      ensures list == init
    {
      list := init;
    }

    method SetHeader(name: string, value: string)
      modifies this
      ensures list == Set(old(list), name, value)
    {
      list := Set(list, name, value);
    }
  }
}
