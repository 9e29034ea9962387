/** `/response-headers`: every query parameter becomes a response header whose
    name is the parameter's key passed through `str.capitalize`, and the same
    name-to-value map is sent as the JSON body. */
module ResponseInspect {

  import opened Options
  import opened Text
  import opened Http

  /** A Python `dict` from names to values, in insertion order. */
  type Dict = seq<(string, string)>

  function Keys(d: Dict): set<string>
    decreases |d|
  {
    if d == [] then {} else {d[0].0} + Keys(d[1..])
  }

  predicate UniqueKeys(d: Dict)
    decreases |d|
  {
    d == [] || (d[0].0 !in Keys(d[1..]) && UniqueKeys(d[1..]))
  }

  function Lookup(d: Dict, k: string): Option<string>
    decreases |d|
  {
    if d == [] then None
    else if d[0].0 == k then Some(d[0].1)
    else Lookup(d[1..], k)
  }

  /** `d[k] = v`: an existing key keeps its place and takes the new value; a
      new key goes at the end. */
  function Put(d: Dict, k: string, v: string): (r: Dict)
    ensures Keys(r) == Keys(d) + {k}
    ensures Lookup(r, k) == Some(v)
    ensures forall k' :: k' != k ==> Lookup(r, k') == Lookup(d, k')
    ensures UniqueKeys(d) ==> UniqueKeys(r)
    ensures |r| <= |d| + 1
    decreases |d|
  {
    if d == [] then [(k, v)]
    else if d[0].0 == k then
      assert ([(k, v)] + d[1..])[1..] == d[1..];
      [(k, v)] + d[1..]
    else
      var r := [d[0]] + Put(d[1..], k, v);
      assert r[1..] == Put(d[1..], k, v);
      r
  }

  /** The items of `request.args.items()`, each `(key, value)`. */
  type Args = seq<(string, string)>

  /** The `(key, value)` pairs of the query string, in URL order; a key may
      repeat. */
  type Query = seq<(string, string)>

  /** `d` without the entry for `k`. */
  function Drop(d: Dict, k: string): (r: Dict)
    ensures Keys(r) == Keys(d) - {k}
    ensures forall k' :: k' != k ==> Lookup(r, k') == Lookup(d, k')
    ensures UniqueKeys(d) ==> UniqueKeys(r)
    decreases |d|
  {
    if d == [] then []
    else if d[0].0 == k then Drop(d[1..], k)
    else
      var r := [d[0]] + Drop(d[1..], k);
      assert r[1..] == Drop(d[1..], k);
      r
  }

  /** `request.args.items()`: one item per distinct key, in order of first
      appearance, carrying the key's FIRST value (what `Lookup`, a scan from
      the front, finds in the query). */
  function ArgsItems(query: Query): (items: Args)
    ensures UniqueKeys(items)
    ensures Keys(items) == Keys(query)
    ensures forall k :: Lookup(items, k) == Lookup(query, k)
    decreases |query|
  {
    if query == [] then []
    else
      var items := [query[0]] + Drop(ArgsItems(query[1..]), query[0].0);
      assert items[1..] == Drop(ArgsItems(query[1..]), query[0].0);
      items
  }

  /** The value of the LAST item whose key capitalises to `name`: the
      reference for "later items overwrite earlier ones". */
  function LastValue(args: Args, name: string): Option<string>
    decreases |args|
  {
    if args == [] then None
    else if Capitalize(args[|args| - 1].0) == name then Some(args[|args| - 1].1)
    else LastValue(args[..|args| - 1], name)
  }

  /** The names the items' keys capitalise to. */
  function Names(args: Args): set<string>
    decreases |args|
  {
    if args == [] then {} else Names(args[..|args| - 1]) + {Capitalize(args[|args| - 1].0)}
  }

  /** A name is in `Names` exactly when some item's key capitalises to it. */
  lemma {:induction false} NamesOf(args: Args, name: string)
    ensures name in Names(args) <==> exists i :: 0 <= i < |args| && Capitalize(args[i].0) == name
    decreases |args|
  {
    if args != [] {
      var last := |args| - 1;
      var init := args[..last];
      NamesOf(init, name);
      if name in Names(init) {
        var i :| 0 <= i < |init| && Capitalize(init[i].0) == name;
        assert args[i] == init[i];
      } else if Capitalize(args[last].0) != name {
        forall i | 0 <= i < |args|
          ensures Capitalize(args[i].0) != name
        {
          if i < last {
            assert args[i] == init[i];
          }
        }
      }
    }
  }

  /** The handler's loop `headers[key.capitalize()] = value` over the items. */
  function Collect(args: Args): (d: Dict)
    ensures UniqueKeys(d)
    ensures Keys(d) == Names(args)
    ensures forall name :: Lookup(d, name) == LastValue(args, name)
    ensures |d| <= |args|
    decreases |args|
  {
    if args == [] then []
    else
      var last := args[|args| - 1];
      Put(Collect(args[..|args| - 1]), Capitalize(last.0), last.1)
  }

  /** A dictionary as a JSON object. */
  function ToJson(d: Dict): (j: map<string, Json>)
    ensures j.Keys == Keys(d)
    ensures forall k :: k in j ==> Lookup(d, k).Some? && j[k] == JStr(Lookup(d, k).value)
    decreases |d|
  {
    if d == [] then map[]
    else
      var rest := ToJson(d[1..]);
      assert Keys(d) == {d[0].0} + Keys(d[1..]);
      rest[d[0].0 := JStr(d[0].1)]
  }

  /** `response.headers.add(name, value)` for each entry, in order. */
  function AsHeaders(d: Dict): (hs: Headers)
    ensures |hs| == |d|
    ensures forall i :: 0 <= i < |d| ==> hs[i] == Header(d[i].0, d[i].1)
  {
    seq(|d|, i requires 0 <= i < |d| => Header(d[i].0, d[i].1))
  }

  /** `/response-headers`: one header per distinct capitalised name, carrying
      the last value given for it, and the same map as the body. */
  function ResponseHeaders(args: Args): (r: Response)
    ensures r.Reply? && r.status == 200 && r.body.JsonBody? && r.body.json.JObj?
    ensures |r.headers| <= |args|
    ensures r.body.json.fields.Keys == Names(args)
    ensures forall name :: name in r.body.json.fields ==>
      LastValue(args, name).Some? && r.body.json.fields[name] == JStr(LastValue(args, name).value)
    ensures forall i :: 0 <= i < |r.headers| ==>
      r.headers[i].name in Names(args) && Some(r.headers[i].value) == LastValue(args, r.headers[i].name)
    ensures forall i, j :: 0 <= i < j < |r.headers| ==> r.headers[i].name != r.headers[j].name
  {
    var d := Collect(args);
    LookupUnique(d);
    UniqueDistinct(d);
    forall i | 0 <= i < |d|
      ensures d[i].0 in Keys(d)
    {
      KeysIndex(d, d[i].0);
    }
    Reply(200, AsHeaders(d), JsonBody(JObj(ToJson(d))))
  }

  /** Every name the body lists is also sent as a header with the same value. */
  lemma EveryNameSent(args: Args, name: string)
    requires name in Names(args)
    ensures var r := ResponseHeaders(args);
      exists i :: 0 <= i < |r.headers| && r.headers[i] == Header(name, LastValue(args, name).value)
  {
    var d := Collect(args);
    KeysIndex(d, name);
    var i :| 0 <= i < |d| && d[i].0 == name;
    LookupUnique(d);
    assert ResponseHeaders(args).headers[i] == Header(name, LastValue(args, name).value);
  }

  /** A key is in the dictionary exactly when some entry carries it. */
  lemma {:induction false} KeysIndex(d: Dict, k: string)
    ensures k in Keys(d) <==> exists i :: 0 <= i < |d| && d[i].0 == k
    decreases |d|
  {
    if d != [] {
      KeysIndex(d[1..], k);
      if k in Keys(d[1..]) {
        var i :| 0 <= i < |d[1..]| && d[1..][i].0 == k;
        assert d[i + 1].0 == k;
      }
      if exists i :: 0 <= i < |d| && d[i].0 == k {
        var i :| 0 <= i < |d| && d[i].0 == k;
        if i > 0 {
          assert d[1..][i - 1].0 == k;
        }
      }
    }
  }

  /** Unique keys are pairwise distinct. */
  lemma {:induction false} UniqueDistinct(d: Dict)
    requires UniqueKeys(d)
    ensures forall i, j :: 0 <= i < j < |d| ==> d[i].0 != d[j].0
    decreases |d|
  {
    if d != [] {
      UniqueDistinct(d[1..]);
      forall i, j | 0 <= i < j < |d|
        ensures d[i].0 != d[j].0
      {
        if i == 0 {
          KeysIndex(d[1..], d[j].0);
          assert d[1..][j - 1] == d[j];
        } else {
          assert d[1..][i - 1] == d[i] && d[1..][j - 1] == d[j];
        }
      }
    }
  }

  /** In a dictionary with unique keys, each entry is what lookup finds. */
  lemma {:induction false} LookupUnique(d: Dict)
    requires UniqueKeys(d)
    ensures forall i :: 0 <= i < |d| ==> Lookup(d, d[i].0) == Some(d[i].1)
    decreases |d|
  {
    if d != [] {
      LookupUnique(d[1..]);
      forall i | 1 <= i < |d|
        ensures Lookup(d, d[i].0) == Some(d[i].1)
      {
        assert d[1..][i - 1] == d[i];
        KeysIndex(d[1..], d[i].0);
      }
    }
  }

  /** With no query items the body is `{}` and no header is added. */
  lemma NoArgs()
    ensures ResponseHeaders([]) == Reply(200, [], JsonBody(JObj(map[])))
  {
  }

  /** A key repeated in the URL gives one header, carrying its first value. */
  lemma RepeatedKeyKeepsFirst(k: string, first: string, second: string)
    ensures ResponseHeaders(ArgsItems([(k, first), (k, second)])).headers == [Header(Capitalize(k), first)]
  {
    var query := [(k, first), (k, second)];
    assert query[1..] == [(k, second)];
    assert ArgsItems(query[1..]) == [(k, second)];
    assert ArgsItems(query) == [(k, first)];
    var items := [(k, first)];
    assert items[..0] == [];
    assert Collect(items) == [(Capitalize(k), first)];
  }

  /** Keys that differ only in letter case collapse into one header, and the
      later value wins. */
  lemma CollidingKeysCollapse(a: string, b: string, first: string, second: string)
    requires ToLower(a) == ToLower(b)
    ensures var r := ResponseHeaders([(a, first), (b, second)]);
      |r.headers| == 1 && r.headers[0] == Header(Capitalize(b), second)
  {
    var args := [(a, first), (b, second)];
    assert Capitalize(a) == Capitalize(b) by {
      CapitalizeCaseBlind(a, b);
    }
    assert args[..1] == [(a, first)];
    assert Collect(args) == [(Capitalize(b), second)];
  }

  /** Two keys with the same lower-case form capitalise to the same name. */
  lemma CapitalizeCaseBlind(a: string, b: string)
    requires ToLower(a) == ToLower(b)
    ensures Capitalize(a) == Capitalize(b)
  {
    if a != [] {
      assert Lower(a[0]) == Lower(b[0]);
      assert Upper(a[0]) == Upper(b[0]);
      assert ToLower(a[1..]) == ToLower(a)[1..] == ToLower(b)[1..] == ToLower(b[1..]);
    }
  }

  /** Capitalised names are case-insensitively distinct exactly when they
      are distinct, so no two added headers name the same HTTP header. */
  lemma AddedHeadersDistinctIgnoringCase(args: Args)
    ensures var hs := ResponseHeaders(args).headers;
      forall i, j :: 0 <= i < j < |hs| ==> !SameName(hs[i].name, hs[j].name)
  {
    var hs := ResponseHeaders(args).headers;
    forall i, j | 0 <= i < j < |hs|
      ensures !SameName(hs[i].name, hs[j].name)
    {
      var a, b := hs[i].name, hs[j].name;
      if SameName(a, b) {
        CapitalizeCaseBlind(a, b);
        CapitalizedFixed(args, i);
        CapitalizedFixed(args, j);
      }
    }
  }

  /** Every added header name is already in capitalised form. */
  lemma CapitalizedFixed(args: Args, i: nat)
    requires i < |ResponseHeaders(args).headers|
    ensures Capitalize(ResponseHeaders(args).headers[i].name) == ResponseHeaders(args).headers[i].name
  {
    var name := ResponseHeaders(args).headers[i].name;
    NamesOf(args, name);
    var k :| 0 <= k < |args| && Capitalize(args[k].0) == name;
    CapitalizeIdempotent(args[k].0);
  }
}
