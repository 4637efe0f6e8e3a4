/**
 * The token array of a parsed JSON document and its navigation.
 *
 * Tokens are stored depth-first: a token is followed by all tokens nested in
 * it, object keys being nested in their object and values in their key.
 * `childCount()` is the number of nested tokens, so `next()` (one past them)
 * and `firstChild()` (right after the token) are index arithmetic.  A
 * pointer to a token is its index in the array.
 */
module JsonTree {
  import Optional
  import opened JsonToken

  /**
   * `childCount()`: what an object or an array stores in the union, none for
   * a value, and for a key its value with everything nested in it.
   */
  function ChildCount(tokens: seq<Token>, i: nat): nat
    requires i < |tokens|
    decreases |tokens| - i
  {
    var word := tokens[i].word;
    if TypeOf(word) == Optional.Some(Object) || TypeOf(word) == Optional.Some(Array) then tokens[i].payload
    else if IsKey(word) && i + 1 < |tokens| then ChildCount(tokens, i + 1) + 1
    else 0
  }

  /** `next()`: the token after this one and everything nested in it. */
  function Next(tokens: seq<Token>, i: nat): (r: nat)
    requires i < |tokens|
    ensures i < r
  {
    i + ChildCount(tokens, i) + 1
  }

  /**
   * `firstChild()`: the next token, for an object or an array whose stored
   * child count is not zero and for an object key; otherwise none.
   */
  function FirstChild(tokens: seq<Token>, i: nat): (r: Optional.Option<nat>)
    requires i < |tokens|
    ensures r.Some? ==> r.value == i + 1
  {
    var word := tokens[i].word;
    if (((word & TypeMask == TypeObject || word & TypeMask == TypeArray) && tokens[i].payload != 0)
        || word & FlagStringKey != 0)
    then Optional.Some(i + 1)
    else Optional.None
  }

  /**
   * The parsed types a token of type `t` can have: objects and arrays are
   * always parsed as `Other`, numbers only as one of the numeric types, and
   * the other values as `Other` once parsed.
   */
  predicate ParsedTypeFits(t: Type, p: ParsedType) {
    match t
    case Object => p == Other
    case Array => p == Other
    case Number => p != Other
    case _ => p == ParsedType.None || p == Other
  }

  /**
   * The token at `i` and the tokens nested in it are laid out depth-first:
   * an object's children are keys, an array's children are values, a key
   * has one value right after it, and the other values have no children.
   */
  predicate Tree(tokens: seq<Token>, i: nat)
    decreases |tokens| - i, 0
  {
    && i < |tokens|
    && Next(tokens, i) <= |tokens|
    && var word := tokens[i].word;
    && TypeOf(word).Some?
    && ParsedTypeFits(TypeOf(word).value, ParsedTypeOf(word))
    && match TypeOf(word).value
       case Object => !IsKey(word) && Forest(tokens, i + 1, Next(tokens, i), true)
       case Array => !IsKey(word) && Forest(tokens, i + 1, Next(tokens, i), false)
       case String => IsKey(word) ==> i + 1 < |tokens| && Tree(tokens, i + 1) && !IsKey(tokens[i + 1].word)
       case _ => !IsKey(word)
  }

  /**
   * The tokens in `[from, to)` are a sequence of sibling trees, each a key
   * exactly when `keys` holds, each one starting at the previous one's `next()`.
   */
  predicate Forest(tokens: seq<Token>, from: nat, to: nat, keys: bool)
    decreases |tokens| - from, 1
  {
    && from <= to <= |tokens|
    && (from < to ==>
        && Tree(tokens, from)
        && IsKey(tokens[from].word) == keys
        && Next(tokens, from) <= to
        && Forest(tokens, Next(tokens, from), to, keys))
  }

  /** A whole document: one root token whose nested tokens are all the others. */
  predicate Document(tokens: seq<Token>) {
    |tokens| > 0 && Tree(tokens, 0) && Next(tokens, 0) == |tokens|
  }

  /** The immediate children in `[from, to)`: each one at the previous one's `next()`. */
  function Children(tokens: seq<Token>, from: nat, to: nat): seq<nat>
    decreases to - from
  {
    if from < to && from < |tokens| then [from] + Children(tokens, Next(tokens, from), to) else []
  }

  /**
   * `firstChild()` finds a child exactly when there are nested tokens; null,
   * bool and number tokens never have one, and a non-empty object's first
   * child is a key.
   */
  lemma FirstChildExactlyWithChildren(tokens: seq<Token>, i: nat)
    requires Tree(tokens, i)
    ensures FirstChild(tokens, i).Some? <==> ChildCount(tokens, i) > 0
    ensures TypeOf(tokens[i].word).value in {Null, Bool, Number} ==> FirstChild(tokens, i).None?
    ensures TypeOf(tokens[i].word).value == Object && FirstChild(tokens, i).Some? ==>
      Tree(tokens, i + 1) && IsKey(tokens[i + 1].word) && TypeOf(tokens[i + 1].word) == Optional.Some(String)
  {
    var word := tokens[i].word;
    match TypeOf(word).value
    case Object =>
      assert word & TypeMask == TypeObject;
      if ChildCount(tokens, i) > 0 {
        KeysAreStrings(tokens, i + 1);
      }
    case Array =>
      assert word & TypeMask == TypeArray;
    case String =>
    case _ =>
      assert word & TypeMask != TypeObject && word & TypeMask != TypeArray;
  }

  /** Any token with nested tokens, in any layout, has a first child. */
  lemma ChildCountHasFirstChild(tokens: seq<Token>, i: nat)
    requires i < |tokens|
    ensures ChildCount(tokens, i) > 0 ==> FirstChild(tokens, i).Some?
  {
    var word := tokens[i].word;
    if TypeOf(word) == Optional.Some(Object) {
      assert word & TypeMask == TypeObject;
    } else if TypeOf(word) == Optional.Some(Array) {
      assert word & TypeMask == TypeArray;
    }
  }

  /** A key is a string. */
  lemma KeysAreStrings(tokens: seq<Token>, k: nat)
    requires Tree(tokens, k) && IsKey(tokens[k].word)
    ensures TypeOf(tokens[k].word) == Optional.Some(String)
  {
  }

  /**
   * A value other than an object or an array has no nested tokens, and a
   * key has its value and what is nested in the value: one token exactly
   * when the value has none itself.
   */
  lemma ChildCountOfValuesAndKeys(tokens: seq<Token>, i: nat)
    requires Tree(tokens, i)
    ensures TypeOf(tokens[i].word).value in {Null, Bool, Number} ==> ChildCount(tokens, i) == 0
    ensures TypeOf(tokens[i].word).value == String && !IsKey(tokens[i].word) ==> ChildCount(tokens, i) == 0
    ensures IsKey(tokens[i].word) ==>
      && ChildCount(tokens, i) == ChildCount(tokens, i + 1) + 1
      && Next(tokens, i) == Next(tokens, i + 1)
      && (ChildCount(tokens, i) == 1 <==> ChildCount(tokens, i + 1) == 0)
  {
  }

  /**
   * Every token between a token and its `next()` is nested in it: it is a
   * tree of its own whose `next()` does not pass the outer one's.
   */
  lemma {:induction false} TreeNests(tokens: seq<Token>, i: nat, j: nat)
    requires Tree(tokens, i) && i < j < Next(tokens, i)
    ensures Tree(tokens, j) && Next(tokens, j) <= Next(tokens, i)
    decreases j - i, 0
  {
    var word := tokens[i].word;
    match TypeOf(word).value
    case Object =>
      ForestNests(tokens, i + 1, Next(tokens, i), true, j);
    case Array =>
      ForestNests(tokens, i + 1, Next(tokens, i), false, j);
    case String =>
      assert IsKey(word);
      if j > i + 1 {
        TreeNests(tokens, i + 1, j);
      }
    case _ =>
      assert false;
  }

  /** Every token of a forest is nested in one of its trees, never past the forest's end. */
  lemma {:induction false} ForestNests(tokens: seq<Token>, from: nat, to: nat, keys: bool, j: nat)
    requires Forest(tokens, from, to, keys) && from <= j < to
    ensures Tree(tokens, j) && Next(tokens, j) <= to
    decreases j - from, 1
  {
    var next := Next(tokens, from);
    if j == from {
    } else if j < next {
      TreeNests(tokens, from, j);
    } else {
      ForestNests(tokens, next, to, keys, j);
    }
  }

  /** In a document every token is a tree, and no `next()` runs past the end. */
  lemma DocumentTokensNest(tokens: seq<Token>, j: nat)
    requires Document(tokens) && j < |tokens|
    ensures Tree(tokens, j) && Next(tokens, j) <= |tokens|
  {
    if j > 0 {
      TreeNests(tokens, 0, j);
    }
  }

  /**
   * `c` lists the immediate children of `[from, to)` in order: trees, each a
   * key exactly when `keys` holds, each at the previous one's `next()`, the
   * first at `from` and the last one's `next()` at `to`.
   */
  predicate Siblings(tokens: seq<Token>, c: seq<nat>, from: nat, to: nat, keys: bool) {
    && (|c| == 0 <==> from == to)
    && (forall m :: 0 <= m < |c| ==>
          && Tree(tokens, c[m]) && IsKey(tokens[c[m]].word) == keys
          && from <= c[m] < Next(tokens, c[m]) <= to)
    && (forall m :: 0 <= m < |c| - 1 ==> c[m + 1] == Next(tokens, c[m]))
    && (|c| > 0 ==> c[0] == from && Next(tokens, c[|c| - 1]) == to)
  }

  /** The children `Children` finds in a forest are its immediate children in order. */
  lemma {:induction false} ForestChildren(tokens: seq<Token>, from: nat, to: nat, keys: bool)
    requires Forest(tokens, from, to, keys)
    ensures Siblings(tokens, Children(tokens, from, to), from, to, keys)
    decreases |tokens| - from
  {
    if from < to {
      var next := Next(tokens, from);
      var rest := Children(tokens, next, to);
      ForestChildren(tokens, next, to, keys);
      assert Children(tokens, from, to) == [from] + rest;
    }
  }

  /** An object key's value is its first child: a value tree ending where the key's `next()` is. */
  lemma KeyValue(tokens: seq<Token>, k: nat)
    requires Tree(tokens, k) && IsKey(tokens[k].word)
    ensures FirstChild(tokens, k) == Optional.Some(k + 1)
    ensures Tree(tokens, k + 1) && !IsKey(tokens[k + 1].word) && Next(tokens, k + 1) == Next(tokens, k)
  {
    KeysAreStrings(tokens, k);
  }

  /**
   * The immediate children of an object are keys and those of an array are
   * values, all between the container and its `next()`.
   */
  lemma ContainerChildren(tokens: seq<Token>, i: nat)
    requires Tree(tokens, i) && TypeOf(tokens[i].word).value in {Object, Array}
    ensures Siblings(tokens, Children(tokens, i + 1, Next(tokens, i)), i + 1, Next(tokens, i),
                     TypeOf(tokens[i].word).value == Object)
  {
    ForestChildren(tokens, i + 1, Next(tokens, i), TypeOf(tokens[i].word).value == Object);
  }
}
