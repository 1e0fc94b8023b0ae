/**
  The router (`route.c`): a binary search tree of routes keyed by URI and
  ordered by `strcmp`. A key that compares greater than a node's key goes to
  its right, any other key that is not equal to it goes to its left, and
  adding an existing key changes nothing (the first value wins).
*/
module Router {
  import opened Wrappers

  // ---------------------------------------------------------------------------
  // strcmp

  /** A C string holds no NUL character before its terminator. */
  predicate NoNul(s: string) {
    forall i :: 0 <= i < |s| ==> s[i] != '\0'
  }

  /** The character `strcmp` sees first: the terminator reads as 0. */
  function Head(s: string): int {
    if s == [] then 0 else s[0] as int
  }

  /**
    `strcmp`: the difference of the first pair of characters that differ,
    reading the terminator as 0; zero when the strings are equal.
  */
  function StrCmp(a: string, b: string): int
    decreases |a|
  {
    if a == [] || b == [] || a[0] != b[0] then Head(a) - Head(b) else StrCmp(a[1..], b[1..])
  }

  /** On C strings, `strcmp` is zero exactly on equal strings. */
  lemma {:induction false} StrCmpZero(a: string, b: string)
    requires NoNul(a) && NoNul(b)
    ensures StrCmp(a, b) == 0 <==> a == b
    decreases |a|
  {
    if a != [] && b != [] && a[0] == b[0] {
      StrCmpZero(a[1..], b[1..]);
      assert a == [a[0]] + a[1..] && b == [b[0]] + b[1..];
    } else if a == [] && b != [] {
      assert b[0] != '\0';
    } else if a != [] && b == [] {
      assert a[0] != '\0';
    }
  }

  /** Swapping the arguments negates the result. */
  lemma {:induction false} StrCmpSwap(a: string, b: string)
    ensures StrCmp(b, a) == -StrCmp(a, b)
    decreases |a|
  {
    if a != [] && b != [] && a[0] == b[0] {
      StrCmpSwap(a[1..], b[1..]);
    }
  }

  /** "Compares less" is transitive. */
  lemma {:induction false} StrCmpTrans(a: string, b: string, c: string)
    requires StrCmp(a, b) < 0 && StrCmp(b, c) < 0
    ensures StrCmp(a, c) < 0
    decreases |a|
  {
    if a != [] && b != [] && c != [] && a[0] == b[0] && b[0] == c[0] {
      StrCmpTrans(a[1..], b[1..], c[1..]);
    }
  }

  // ---------------------------------------------------------------------------
  // The tree

  datatype Routes = Empty | Route(key: string, value: string, left: Routes, right: Routes)

  datatype Router = Router(root: Routes)

  function Keys(t: Routes): set<string> {
    match t
    case Empty => {}
    case Route(k, _, l, r) => {k} + Keys(l) + Keys(r)
  }

  /** Every key of the left subtree compares less than the node's key, every key of the right one greater. */
  predicate IsBst(t: Routes) {
    match t
    case Empty => true
    case Route(k, _, l, r) =>
      && IsBst(l) && IsBst(r)
      && (forall x :: x in Keys(l) ==> StrCmp(x, k) < 0)
      && (forall x :: x in Keys(r) ==> StrCmp(x, k) > 0)
  }

  /** All keys are C strings. */
  predicate CKeys(t: Routes) {
    forall x :: x in Keys(t) ==> NoNul(x)
  }

  /** `init_route`: a node holding the key and the value, with no children. */
  function InitRoute(key: string, value: string): (r: Routes)
    ensures IsBst(r) && Keys(r) == {key}
    ensures r.Route? && r.value == value && r.left == Empty && r.right == Empty
  {
    Route(key, value, Empty, Empty)
  }

  /** `init_router`: a router with no routes. */
  function InitRouter(): (r: Router)
    ensures IsBst(r.root) && Keys(r.root) == {}
  {
    Router(Empty)
  }

  /** `add_route`: insert by `strcmp`, leaving the tree as it is when the key is already there. */
  function AddRoute(t: Routes, key: string, value: string): Routes {
    match t
    case Empty => InitRoute(key, value)
    case Route(k, v, l, r) =>
      if StrCmp(key, k) == 0 then t
      else if StrCmp(key, k) > 0 then Route(k, v, l, AddRoute(r, key, value))
      else Route(k, v, AddRoute(l, key, value), r)
  }

  /** `search_route`: the node holding `key`, or nothing. */
  function SearchRoute(t: Routes, key: string): (r: Option<Routes>)
    ensures r.Some? ==> r.value.Route?
  {
    match t
    case Empty => None
    case Route(k, _, l, r) =>
      if StrCmp(key, k) == 0 then Some(t)
      else if StrCmp(key, k) > 0 then SearchRoute(r, key)
      else SearchRoute(l, key)
  }

  /** `list_routes`: the routes in order, left subtree, node, right subtree. */
  function ListRoutes(t: Routes): seq<(string, string)> {
    match t
    case Empty => []
    case Route(k, v, l, r) => ListRoutes(l) + [(k, v)] + ListRoutes(r)
  }

  // ---------------------------------------------------------------------------
  // Properties

  /** Adding a route keeps the search-tree order and adds exactly its key. */
  lemma {:induction false} AddRouteSpec(t: Routes, key: string, value: string)
    requires IsBst(t) && CKeys(t) && NoNul(key)
    ensures IsBst(AddRoute(t, key, value))
    ensures Keys(AddRoute(t, key, value)) == Keys(t) + {key}
  {
    match t
    case Empty =>
    case Route(k, v, l, r) =>
      StrCmpZero(key, k);
      if StrCmp(key, k) > 0 {
        AddRouteSpec(r, key, value);
      } else if StrCmp(key, k) < 0 {
        AddRouteSpec(l, key, value);
      }
  }

  /** Adding a key that is already present changes nothing: the first value wins. */
  lemma {:induction false} AddRouteExisting(t: Routes, key: string, value: string)
    requires IsBst(t) && CKeys(t) && NoNul(key) && key in Keys(t)
    ensures AddRoute(t, key, value) == t
  {
    match t
    case Empty =>
    case Route(k, v, l, r) =>
      StrCmpZero(key, k);
      if StrCmp(key, k) > 0 {
        NotInOtherSide(t, key);
        AddRouteExisting(r, key, value);
      } else if StrCmp(key, k) < 0 {
        NotInOtherSide(t, key);
        AddRouteExisting(l, key, value);
      }
  }

  /** A key that compares greater than a node's key is not in its left subtree, and the other way round. */
  lemma NotInOtherSide(t: Routes, key: string)
    requires IsBst(t) && t.Route?
    ensures StrCmp(key, t.key) > 0 ==> key !in Keys(t.left)
    ensures StrCmp(key, t.key) < 0 ==> key !in Keys(t.right)
  {
  }

  /** Search finds a node exactly for the keys of the tree, and the node it finds holds that key. */
  lemma {:induction false} SearchRouteSpec(t: Routes, key: string)
    requires IsBst(t) && CKeys(t) && NoNul(key)
    ensures SearchRoute(t, key).Some? <==> key in Keys(t)
    ensures SearchRoute(t, key).Some? ==> SearchRoute(t, key).value.Route? && SearchRoute(t, key).value.key == key
  {
    match t
    case Empty =>
    case Route(k, v, l, r) =>
      StrCmpZero(key, k);
      NotInOtherSide(t, key);
      if StrCmp(key, k) > 0 {
        SearchRouteSpec(r, key);
      } else if StrCmp(key, k) < 0 {
        SearchRouteSpec(l, key);
      }
  }

  /** After adding a fresh key, searching for it finds the value just added. */
  lemma {:induction false} AddThenSearch(t: Routes, key: string, value: string)
    requires IsBst(t) && CKeys(t) && NoNul(key) && key !in Keys(t)
    ensures SearchRoute(AddRoute(t, key, value), key).Some?
    ensures SearchRoute(AddRoute(t, key, value), key).value.Route?
    ensures SearchRoute(AddRoute(t, key, value), key).value.value == value
  {
    match t
    case Empty =>
      assert StrCmp(key, key) == 0 by { StrCmpZero(key, key); }
    case Route(k, v, l, r) =>
      StrCmpZero(key, k);
      if StrCmp(key, k) > 0 {
        AddThenSearch(r, key, value);
      } else {
        AddThenSearch(l, key, value);
      }
  }

  /**
    Adding a route leaves every other key's search result alone: the same
    keys are found, with the same values.
  */
  lemma {:induction false} AddRouteKeepsOthers(t: Routes, key: string, value: string, other: string)
    requires NoNul(key) && NoNul(other) && other != key
    ensures SearchRoute(AddRoute(t, key, value), other).Some? <==> SearchRoute(t, other).Some?
    ensures SearchRoute(t, other).Some? ==>
      && SearchRoute(AddRoute(t, key, value), other).value.key == SearchRoute(t, other).value.key
      && SearchRoute(AddRoute(t, key, value), other).value.value == SearchRoute(t, other).value.value
  {
    match t
    case Empty =>
      StrCmpZero(other, key);
    case Route(k, v, l, r) =>
      if StrCmp(key, k) > 0 {
        AddRouteKeepsOthers(r, key, value, other);
      } else if StrCmp(key, k) < 0 {
        AddRouteKeepsOthers(l, key, value, other);
      }
  }

  /** Keys strictly ascending under `strcmp`. */
  predicate Ascending(routes: seq<(string, string)>) {
    forall i, j :: 0 <= i < j < |routes| ==> StrCmp(routes[i].0, routes[j].0) < 0
  }

  function ListedKeys(routes: seq<(string, string)>): set<string> {
    set i | 0 <= i < |routes| :: routes[i].0
  }

  /** Listing a search tree visits every key once, in strictly ascending order. */
  lemma {:induction false} ListRoutesSpec(t: Routes)
    requires IsBst(t)
    ensures Ascending(ListRoutes(t))
    ensures ListedKeys(ListRoutes(t)) == Keys(t)
  {
    match t
    case Empty =>
    case Route(k, v, l, r) =>
      ListRoutesSpec(l);
      ListRoutesSpec(r);
      ListedKeysJoin(ListRoutes(l), (k, v), ListRoutes(r));
      AscendingJoin(ListRoutes(l), (k, v), ListRoutes(r));
  }

  /** Searching `t` for the pair's key finds a route holding the pair's value. */
  predicate ListedValue(t: Routes, p: (string, string)) {
    SearchRoute(t, p.0).Some? && SearchRoute(t, p.0).value.value == p.1
  }

  /** Each listed pair holds its key's route value: searching for the key finds that value. */
  lemma {:induction false} ListRoutesValues(t: Routes)
    requires IsBst(t) && CKeys(t)
    ensures forall i :: 0 <= i < |ListRoutes(t)| ==> ListedValue(t, ListRoutes(t)[i])
  {
    match t
    case Empty =>
    case Route(k, v, l, r) =>
      var a, b := ListRoutes(l), ListRoutes(r);
      var s := ListRoutes(t);
      ListRoutesValues(l);
      ListRoutesValues(r);
      ListRoutesSpec(l);
      ListRoutesSpec(r);
      assert s == a + [(k, v)] + b;
      forall i | 0 <= i < |s| ensures ListedValue(t, s[i]) {
        if i < |a| {
          assert s[i] == a[i] && a[i].0 in ListedKeys(a);
          SubtreeListed(t, a[i]);
        } else if i == |a| {
          StrCmpZero(k, k);
        } else {
          var j := i - |a| - 1;
          assert s[i] == b[j] && b[j].0 in ListedKeys(b);
          SubtreeListed(t, b[j]);
        }
      }
  }

  /** A pair listed with its value in one subtree is listed with it in the whole tree. */
  lemma SubtreeListed(t: Routes, p: (string, string))
    requires IsBst(t) && t.Route?
    requires (p.0 in Keys(t.left) && ListedValue(t.left, p)) || (p.0 in Keys(t.right) && ListedValue(t.right, p))
    ensures ListedValue(t, p)
  {
    SearchSide(t, p.0);
  }

  /** A key of one subtree is searched for in that subtree. */
  lemma SearchSide(t: Routes, x: string)
    requires IsBst(t) && t.Route?
    ensures x in Keys(t.left) ==> SearchRoute(t, x) == SearchRoute(t.left, x)
    ensures x in Keys(t.right) ==> SearchRoute(t, x) == SearchRoute(t.right, x)
  {
  }

  lemma ListedKeysJoin(a: seq<(string, string)>, m: (string, string), b: seq<(string, string)>)
    ensures ListedKeys(a + [m] + b) == ListedKeys(a) + {m.0} + ListedKeys(b)
  {
    var s := a + [m] + b;
    forall x | x in ListedKeys(s) ensures x in ListedKeys(a) + {m.0} + ListedKeys(b) {
      var i :| 0 <= i < |s| && s[i].0 == x;
      if i < |a| {
        assert s[i] == a[i];
      } else if i > |a| {
        assert s[i] == b[i - |a| - 1];
      }
    }
    forall x | x in ListedKeys(a) + {m.0} + ListedKeys(b) ensures x in ListedKeys(s) {
      if x in ListedKeys(a) {
        var i :| 0 <= i < |a| && a[i].0 == x;
        assert s[i] == a[i];
      } else if x == m.0 {
        assert s[|a|] == m;
      } else {
        var i :| 0 <= i < |b| && b[i].0 == x;
        assert s[|a| + 1 + i] == b[i];
      }
    }
  }

  /** Two ascending runs joined by a key between them ascend. */
  lemma AscendingJoin(a: seq<(string, string)>, m: (string, string), b: seq<(string, string)>)
    requires Ascending(a) && Ascending(b)
    requires forall x :: x in ListedKeys(a) ==> StrCmp(x, m.0) < 0
    requires forall x :: x in ListedKeys(b) ==> StrCmp(x, m.0) > 0
    ensures Ascending(a + [m] + b)
  {
    var s := a + [m] + b;
    forall i, j | 0 <= i < j < |s| ensures StrCmp(s[i].0, s[j].0) < 0 {
      if j < |a| {
        assert s[i] == a[i] && s[j] == a[j];
      } else if i > |a| {
        assert s[i] == b[i - |a| - 1] && s[j] == b[j - |a| - 1];
      } else if j == |a| {
        assert s[i] == a[i] && a[i].0 in ListedKeys(a);
      } else if i == |a| {
        assert s[j] == b[j - |a| - 1] && b[j - |a| - 1].0 in ListedKeys(b);
        StrCmpSwap(m.0, s[j].0);
      } else {
        assert s[i] == a[i] && a[i].0 in ListedKeys(a);
        assert s[j] == b[j - |a| - 1] && b[j - |a| - 1].0 in ListedKeys(b);
        StrCmpSwap(m.0, s[j].0);
        StrCmpTrans(s[i].0, m.0, s[j].0);
      }
    }
  }
}
