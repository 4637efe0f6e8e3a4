/**
 * Iteration over the immediate children of a JSON object or array:
 * `JsonView` holds the first child and the container's `next()`, and
 * `JsonIterator` steps from one child to the next with `next()`, counting
 * the children it has passed.
 */
module JsonIteration {
  import Optional
  import opened JsonToken
  import opened JsonTree

  /** `JsonArrayItem`: the position of a value in its array and the value's token. */
  datatype ArrayItem = ArrayItem(index: nat, token: nat)

  /** `JsonObjectItem`: the key token of one object member. */
  datatype ObjectItem = ObjectItem(token: nat)

  /** `JsonObjectItem::value()`: the key's first child, the member's value. */
  function ObjectItemValue(tokens: seq<Token>, item: ObjectItem): (r: nat)
    requires Tree(tokens, item.token) && IsKey(tokens[item.token].word)
    ensures r == item.token + 1
    ensures Tree(tokens, r) && !IsKey(tokens[r].word) && Next(tokens, r) == Next(tokens, item.token)
  {
    KeyValue(tokens, item.token);
    FirstChild(tokens, item.token).value
  }

  /** `JsonIterator`: an index counting the items passed and the current token. */
  class JsonIterator {
    const tokens: seq<Token>
    var index: nat
    var token: nat

    constructor (tokens: seq<Token>, index: nat, token: nat)
      ensures this.tokens == tokens && this.index == index && this.token == token
    {
      this.tokens := tokens;
      this.index := index;
      this.token := token;
    }

    /** `operator==`: only the token positions are compared. */
    method Equal(other: JsonIterator) returns (r: bool)
      ensures r <==> token == other.token
    {
      r := token == other.token;
    }

    /** `operator!=`: the negation of `operator==`. */
    method NotEqual(other: JsonIterator) returns (r: bool)
      ensures r <==> token != other.token
    {
      r := token != other.token;
    }

    /** `operator++`: one more item passed, the token moved to its `next()`. */
    method Increment()
      requires token < |tokens|
      modifies this
      ensures index == old(index) + 1 && token == Next(tokens, old(token))
    {
      index := index + 1;
      token := Next(tokens, token);
    }

    /** `operator*` of an array iterator: the current index and token. */
    method ArrayItemAt() returns (r: ArrayItem)
      ensures r.index == index && r.token == token
    {
      r := ArrayItem(index, token);
    }

    /** `operator*` of an object iterator: the current key token. */
    method ObjectItemAt() returns (r: ObjectItem)
      ensures r.token == token
    {
      r := ObjectItem(token);
    }
  }

  /** `JsonView`: the first token to visit and the token to stop at. */
  datatype JsonView = JsonView(tokens: seq<Token>, begin: nat, end: nat)
  {
    /** `begin()`: an iterator at the first token with index zero. */
    method Begin() returns (it: JsonIterator)
      ensures fresh(it) && it.tokens == tokens && it.index == 0 && it.token == begin
    {
      it := new JsonIterator(tokens, 0, begin);
    }

    /** `end()`: an iterator at the stop token, also with index zero. */
    method End() returns (it: JsonIterator)
      ensures fresh(it) && it.tokens == tokens && it.index == 0 && it.token == end
    {
      it := new JsonIterator(tokens, 0, end);
    }
  }

  /** The view over a container's contents: from its first nested token to its `next()`. */
  function ContentsView(tokens: seq<Token>, i: nat): (r: JsonView)
    requires Tree(tokens, i) && TypeOf(tokens[i].word).value in {Object, Array}
    ensures r.tokens == tokens
    ensures Forest(tokens, r.begin, r.end, TypeOf(tokens[i].word).value == Object)
    ensures i < r.begin <= r.end <= |tokens|
    ensures r.begin < r.end <==> FirstChild(tokens, i).Some?
  {
    FirstChildExactlyWithChildren(tokens, i);
    JsonView(tokens, i + 1, Next(tokens, i))
  }

  /** The token positions of a list of array items. */
  function Positions(items: seq<ArrayItem>): (r: seq<nat>)
    ensures |r| == |items| && forall m :: 0 <= m < |items| ==> r[m] == items[m].token
  {
    if items == [] then [] else [items[0].token] + Positions(items[1..])
  }

  /** In a list of siblings every position comes after the earlier ones. */
  lemma {:induction false} SiblingsIncrease(tokens: seq<Token>, c: seq<nat>, from: nat, to: nat, keys: bool, m: nat, n: nat)
    requires Siblings(tokens, c, from, to, keys) && m < n < |c|
    ensures c[m] < c[n]
    decreases n - m
  {
    if m + 1 < n {
      SiblingsIncrease(tokens, c, from, to, keys, m + 1, n);
    }
  }

  /**
   * Two iterators over the same siblings that reached the same token have
   * passed the same number of items: the index need not be compared.
   */
  lemma IndexIsImplicit(tokens: seq<Token>, c: seq<nat>, from: nat, to: nat, keys: bool, m: nat, n: nat)
    requires Siblings(tokens, c, from, to, keys) && m < |c| && n < |c|
    ensures c[m] == c[n] <==> m == n
  {
    if m < n {
      SiblingsIncrease(tokens, c, from, to, keys, m, n);
    } else if n < m {
      SiblingsIncrease(tokens, c, from, to, keys, n, m);
    }
  }

  /**
   * A range-based loop over a view of siblings: from `begin()` until the
   * iterator equals `end()`, collecting what each step dereferences to.
   * Each immediate child is visited once, in order, with its position.
   */
  method Walk(view: JsonView, ghost keys: bool) returns (items: seq<ArrayItem>)
    requires Forest(view.tokens, view.begin, view.end, keys)
    ensures Positions(items) == Children(view.tokens, view.begin, view.end)
    ensures Siblings(view.tokens, Positions(items), view.begin, view.end, keys)
    ensures forall m :: 0 <= m < |items| ==> items[m].index == m
  {
    ghost var c := Children(view.tokens, view.begin, view.end);
    ForestChildren(view.tokens, view.begin, view.end, keys);
    var it := view.Begin();
    var last := view.End();
    items := [];
    var more := it.NotEqual(last);
    while more
      invariant it != last && it.tokens == view.tokens && last.token == view.end
      invariant more <==> it.token != view.end
      invariant Forest(view.tokens, it.token, view.end, keys)
      invariant c == Positions(items) + Children(view.tokens, it.token, view.end)
      invariant it.index == |items|
      invariant forall m :: 0 <= m < |items| ==> items[m].index == m
      decreases view.end - it.token
    {
      var item := it.ArrayItemAt();
      WalkStep(view.tokens, it.token, view.end, keys, items, item);
      items := Numbered(items, item);
      it.Increment();
      more := it.NotEqual(last);
    }
  }

  /** `items` with `item` after it, numbered by its position. */
  function Numbered(items: seq<ArrayItem>, item: ArrayItem): (r: seq<ArrayItem>)
    requires forall m :: 0 <= m < |items| ==> items[m].index == m
    requires item.index == |items|
    ensures |r| == |items| + 1 && Positions(r) == Positions(items) + [item.token]
    ensures forall m :: 0 <= m < |r| ==> r[m].index == m
  {
    assert Positions(items + [item]) == Positions(items) + [item.token];
    items + [item]
  }

  /** One step of `Walk`: the current token is the next child; the rest follow its `next()`. */
  lemma WalkStep(tokens: seq<Token>, at: nat, end: nat, keys: bool, items: seq<ArrayItem>, item: ArrayItem)
    requires Forest(tokens, at, end, keys) && at != end && item.token == at
    ensures at < Next(tokens, at) <= end && Forest(tokens, Next(tokens, at), end, keys)
    ensures Positions(items) + Children(tokens, at, end)
         == Positions(items) + [at] + Children(tokens, Next(tokens, at), end)
  {
  }
}
