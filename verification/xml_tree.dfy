/**
  `sxiToArray`: the children of an already-parsed XML element become an
  ordered table from tag name to the list of children carrying that tag. A
  child that has children of its own becomes a nested table; a child without
  children becomes its text. Parsing characters into elements is the XML
  library's business and is not modelled.
 */
module XmlTree {
  import opened Wrappers
  import opened PhpStrings

  /** A parsed XML element: tag name, its own text, and its child elements in document order. */
  datatype Element = Element(tag: string, text: string, children: seq<Element>)

  /** What `sxiToArray` produces: a text leaf or a table of tagged lists. */
  datatype Value = Text(text: string) | Table(entries: seq<Entry>)

  /** One key of a PHP array built by `sxiToArray`: a tag and the values stored under it, in order. */
  datatype Entry = Entry(key: string, items: seq<Value>)

  /** One visited child: its tag and the value it contributes. */
  type Pair = (string, Value)

  function Keys(es: seq<Entry>): (ks: seq<string>)
    ensures |ks| == |es| && forall i :: 0 <= i < |es| ==> ks[i] == es[i].key
  {
    seq(|es|, i requires 0 <= i < |es| => es[i].key)
  }

  function Tags(ps: seq<Pair>): (ts: seq<string>)
    ensures |ts| == |ps| && forall i :: 0 <= i < |ps| ==> ts[i] == ps[i].0
  {
    seq(|ps|, i requires 0 <= i < |ps| => ps[i].0)
  }

  predicate Distinct(s: seq<string>) {
    forall i, j :: 0 <= i < j < |s| ==> s[i] != s[j]
  }

  /** Position of the entry keyed `k`, if there is one. */
  function FindKey(es: seq<Entry>, k: string): (r: Option<nat>)
    ensures r.Some? ==> r.value < |es| && es[r.value].key == k
    ensures r.None? <==> k !in Keys(es)
  {
    if |es| == 0 then None
    else if es[0].key == k then Some(0)
    else
      match FindKey(es[1..], k)
      case Some(i) => Some(i + 1)
      case None =>
        assert Keys(es) == [es[0].key] + Keys(es[1..]);
        None
  }

  /** `$a[$k]`, where an unset key reads as the empty list. */
  function Get(es: seq<Entry>, k: string): seq<Value> {
    match FindKey(es, k)
    case Some(i) => es[i].items
    case None => []
  }

  /** Number of values stored in the table, over all keys. */
  function TotalItems(es: seq<Entry>): nat {
    if |es| == 0 then 0 else TotalItems(es[..|es| - 1]) + |es[|es| - 1].items|
  }

  /** One iteration of the `sxiToArray` loop: create the key if absent, then append the value to it. */
  function Add(es: seq<Entry>, k: string, v: Value): seq<Entry> {
    match FindKey(es, k)
    case Some(i) => es[i := Entry(k, es[i].items + [v])]
    case None => es + [Entry(k, [v])]
  }

  /** The `sxiToArray` loop over the visited children, in order. */
  function Group(ps: seq<Pair>): (r: seq<Entry>)
    ensures Distinct(Keys(r))
    ensures TotalItems(r) == |ps|
  {
    if |ps| == 0 then []
    else
      var g := Group(ps[..|ps| - 1]);
      AddKeys(g, ps[|ps| - 1].0, ps[|ps| - 1].1);
      AddTotal(g, ps[|ps| - 1].0, ps[|ps| - 1].1);
      Add(g, ps[|ps| - 1].0, ps[|ps| - 1].1)
  }

  // ----- reference definitions the grouping is compared with -----

  /** The values of the visited children tagged `k`, in document order. */
  function ValuesFor(ps: seq<Pair>, k: string): seq<Value> {
    if |ps| == 0 then []
    else ValuesFor(ps[..|ps| - 1], k) + (if ps[|ps| - 1].0 == k then [ps[|ps| - 1].1] else [])
  }

  /** Index of the first occurrence of `k` in `s`. */
  function FirstIndex(s: seq<string>, k: string): (i: nat)
    requires k in s
    ensures i < |s| && s[i] == k
    ensures forall m :: 0 <= m < i ==> s[m] != k
  {
    if s[0] == k then 0 else 1 + FirstIndex(s[1..], k)
  }

  // ----- proofs -----

  lemma {:induction false} FindKeyDistinct(es: seq<Entry>, i: int)
    requires Distinct(Keys(es)) && 0 <= i < |es|
    ensures FindKey(es, es[i].key) == Some(i)
    decreases |es|
  {
    if i > 0 {
      assert Keys(es)[0] != Keys(es)[i];
      assert Keys(es[1..]) == Keys(es)[1..];
      FindKeyDistinct(es[1..], i - 1);
    }
  }

  lemma {:induction false} TotalItemsUpdate(es: seq<Entry>, i: int, e: Entry)
    requires 0 <= i < |es|
    ensures TotalItems(es[i := e]) + |es[i].items| == TotalItems(es) + |e.items|
    decreases |es|
  {
    var n := |es| - 1;
    if i < n {
      assert es[i := e][..n] == es[..n][i := e];
      TotalItemsUpdate(es[..n], i, e);
    } else {
      assert es[i := e][..n] == es[..n];
    }
  }

  /** One loop iteration keeps the keys, adding `k` at the end when it is new. */
  lemma AddKeys(es: seq<Entry>, k: string, v: Value)
    requires Distinct(Keys(es))
    ensures Keys(Add(es, k, v)) == if k in Keys(es) then Keys(es) else Keys(es) + [k]
    ensures Distinct(Keys(Add(es, k, v)))
  {
    var r := Add(es, k, v);
    match FindKey(es, k)
    case Some(i) =>
      assert forall m :: 0 <= m < |r| ==> Keys(r)[m] == Keys(es)[m];
    case None =>
      assert forall m :: 0 <= m < |es| ==> Keys(r)[m] == Keys(es)[m];
  }

  /** One loop iteration stores exactly one more value. */
  lemma AddTotal(es: seq<Entry>, k: string, v: Value)
    ensures TotalItems(Add(es, k, v)) == TotalItems(es) + 1
  {
    match FindKey(es, k)
    case Some(i) =>
      TotalItemsUpdate(es, i, Entry(k, es[i].items + [v]));
    case None =>
      assert (es + [Entry(k, [v])])[..|es|] == es;
  }

  /** One loop iteration appends `v` to the list of `k` and leaves every other list alone. */
  lemma AddGet(es: seq<Entry>, k: string, v: Value, x: string)
    requires Distinct(Keys(es))
    ensures Get(Add(es, k, v), x) == Get(es, x) + (if x == k then [v] else [])
  {
    var r := Add(es, k, v);
    AddKeys(es, k, v);
    match FindKey(es, x)
    case Some(j) =>
      FindKeyDistinct(es, j);
      assert Keys(r)[j] == Keys(es)[j];
      FindKeyDistinct(r, j);
    case None =>
      if x == k {
        assert Keys(r)[|es|] == k;
        FindKeyDistinct(r, |es|);
      }
  }

  /** What one loop iteration does to the keys, the item count and every key's list. */
  lemma AddKeeps(es: seq<Entry>, k: string, v: Value)
    requires Distinct(Keys(es))
    ensures Keys(Add(es, k, v)) == if k in Keys(es) then Keys(es) else Keys(es) + [k]
    ensures Distinct(Keys(Add(es, k, v)))
    ensures TotalItems(Add(es, k, v)) == TotalItems(es) + 1
    ensures forall x :: Get(Add(es, k, v), x) == Get(es, x) + (if x == k then [v] else [])
  {
    AddKeys(es, k, v);
    AddTotal(es, k, v);
    forall x ensures Get(Add(es, k, v), x) == Get(es, x) + (if x == k then [v] else []) {
      AddGet(es, k, v, x);
    }
  }

  /** An occurrence with no earlier copy is the first occurrence. */
  lemma FirstIndexUnique(s: seq<string>, k: string, j: int)
    requires 0 <= j < |s| && s[j] == k
    requires forall m :: 0 <= m < j ==> s[m] != k
    ensures FirstIndex(s, k) == j
  {
  }

  lemma FirstIndexAppend(s: seq<string>, t: string, k: string)
    requires k in s
    ensures FirstIndex(s + [t], k) == FirstIndex(s, k)
  {
    FirstIndexUnique(s + [t], k, FirstIndex(s, k));
  }

  /**
    The table `sxiToArray` builds holds, under each tag, exactly the children
    carrying that tag in document order; an absent tag reads as empty.
   */
  lemma {:induction false} GroupGet(ps: seq<Pair>, k: string)
    ensures Get(Group(ps), k) == ValuesFor(ps, k)
    decreases |ps|
  {
    if |ps| > 0 {
      var init := ps[..|ps| - 1];
      var last := ps[|ps| - 1];
      GroupGet(init, k);
      AddKeeps(Group(init), last.0, last.1);
    }
  }

  lemma GroupStep(ps: seq<Pair>)
    requires |ps| > 0
    ensures Group(ps) == Add(Group(ps[..|ps| - 1]), ps[|ps| - 1].0, ps[|ps| - 1].1)
  {
  }

  lemma TagsStep(ps: seq<Pair>)
    requires |ps| > 0
    ensures Tags(ps) == Tags(ps[..|ps| - 1]) + [ps[|ps| - 1].0]
  {
  }

  /** The table has a key for every tag among the visited children and for nothing else. */
  lemma {:induction false} GroupKeys(ps: seq<Pair>, k: string)
    ensures k in Keys(Group(ps)) <==> k in Tags(ps)
    decreases |ps|
  {
    if |ps| > 0 {
      var init := ps[..|ps| - 1];
      GroupKeys(init, k);
      GroupStep(ps);
      TagsStep(ps);
      AddKeys(Group(init), ps[|ps| - 1].0, ps[|ps| - 1].1);
    }
  }

  /** The keys of the table appear in the order of each tag's first occurrence. */
  lemma {:induction false} GroupOrder(ps: seq<Pair>, i: int, j: int)
    requires 0 <= i < j < |Group(ps)|
    ensures Group(ps)[i].key in Tags(ps) && Group(ps)[j].key in Tags(ps)
    ensures FirstIndex(Tags(ps), Group(ps)[i].key) < FirstIndex(Tags(ps), Group(ps)[j].key)
    decreases |ps|
  {
    var init := ps[..|ps| - 1];
    var t := ps[|ps| - 1].0;
    var g := Group(init);
    GroupStep(ps);
    TagsStep(ps);
    AddKeys(g, t, ps[|ps| - 1].1);
    var r := Group(ps);
    assert |g| <= |r|;
    var ki, kj := Keys(r)[i], Keys(r)[j];
    assert ki == Keys(g)[i];
    GroupKeys(init, ki);
    FirstIndexAppend(Tags(init), t, ki);
    if j < |g| {
      assert kj == Keys(g)[j];
      GroupKeys(init, kj);
      FirstIndexAppend(Tags(init), t, kj);
      GroupOrder(init, i, j);
    } else {
      assert t in Keys(g) ==> |Keys(r)| == |Keys(g)|;
      assert Keys(r) == Keys(g) + [t];
      assert kj == t;
      GroupKeys(init, t);
      FirstIndexUnique(Tags(ps), t, |init|);
    }
  }

  /** How `sxiToArray` turns one visited child into a value. */
  function ChildValue(c: Element): (r: Value)
    ensures r.Table? <==> |c.children| > 0
    ensures r.Text? ==> r.text == c.text
    ensures r.Table? ==> Distinct(Keys(r.entries)) && TotalItems(r.entries) == |c.children|
    decreases c, 1
  {
    if |c.children| > 0 then Table(SxiToArray(c)) else Text(c.text)
  }

  function Pairs(cs: seq<Element>): (ps: seq<Pair>)
    ensures |ps| == |cs|
    ensures forall i :: 0 <= i < |cs| ==> ps[i] == (cs[i].tag, ChildValue(cs[i]))
    decreases cs, 2
  {
    seq(|cs|, i requires 0 <= i < |cs| => (cs[i].tag, ChildValue(cs[i])))
  }

  /** `sxiToArray($sxi)` where `$sxi` iterates the children of `e`. */
  function SxiToArray(e: Element): (r: seq<Entry>)
    ensures Distinct(Keys(r))
    ensures TotalItems(r) == |e.children|
    ensures forall k :: k in Keys(r) <==> exists i :: 0 <= i < |e.children| && e.children[i].tag == k
    decreases e, 0
  {
    var ps := Pairs(e.children);
    var r := Group(ps);
    forall k ensures k in Keys(r) <==> exists i :: 0 <= i < |e.children| && e.children[i].tag == k {
      GroupKeys(ps, k);
      if k in Tags(ps) {
        var i :| 0 <= i < |ps| && Tags(ps)[i] == k;
        assert e.children[i].tag == k;
      }
    }
    r
  }

  /** The children of `cs` that carry tag `k`, in document order. */
  function Tagged(cs: seq<Element>, k: string): seq<Element> {
    if |cs| == 0 then []
    else Tagged(cs[..|cs| - 1], k) + (if cs[|cs| - 1].tag == k then [cs[|cs| - 1]] else [])
  }

  function ChildValues(cs: seq<Element>): (vs: seq<Value>)
    ensures |vs| == |cs| && forall i :: 0 <= i < |cs| ==> vs[i] == ChildValue(cs[i])
  {
    seq(|cs|, i requires 0 <= i < |cs| => ChildValue(cs[i]))
  }

  lemma {:induction false} ValuesForPairs(cs: seq<Element>, k: string)
    ensures ValuesFor(Pairs(cs), k) == ChildValues(Tagged(cs, k))
    decreases |cs|
  {
    if |cs| > 0 {
      var n := |cs| - 1;
      assert Pairs(cs)[..n] == Pairs(cs[..n]);
      ValuesForPairs(cs[..n], k);
    }
  }

  /**
    Reading tag `k` from the array `sxiToArray` builds for `e` yields the
    children of `e` tagged `k`, in document order, each converted by `ChildValue`.
   */
  lemma SxiToArrayLookup(e: Element, k: string)
    ensures Get(SxiToArray(e), k) == ChildValues(Tagged(e.children, k))
  {
    GroupGet(Pairs(e.children), k);
    ValuesForPairs(e.children, k);
  }

  /** The keys of the array follow the first occurrence of each tag among the children. */
  lemma SxiToArrayKeyOrder(e: Element, i: int, j: int)
    requires 0 <= i < j < |SxiToArray(e)|
    ensures SxiToArray(e)[i].key in Tags(Pairs(e.children)) && SxiToArray(e)[j].key in Tags(Pairs(e.children))
    ensures FirstIndex(Tags(Pairs(e.children)), SxiToArray(e)[i].key)
          < FirstIndex(Tags(Pairs(e.children)), SxiToArray(e)[j].key)
  {
    GroupOrder(Pairs(e.children), i, j);
  }
}
