/**
 The Caddyfile tree of `caddyfile/caddyfile.go` as values: a block carries an order,
 a list of keys and child blocks; a container is the list of its blocks.
 */
module Tree {
  import opened Text

  /** `math.MaxInt32`, the order of a block nobody numbered. */
  const UNORDERED: int := 0x7FFF_FFFF

  datatype Block = Block(order: int, keys: seq<string>, children: seq<Block>) {
    function FirstKey(): string {
      if keys == [] then "" else keys[0]
    }

    predicate IsGlobal() {
      keys == []
    }

    predicate IsSnippet() {
      |keys| == 1 && HasPrefix(keys[0], "(") && HasSuffix(keys[0], ")")
    }

    predicate IsMatcher() {
      keys != [] && HasPrefix(keys[0], "@")
    }
  }

  type Forest = seq<Block>

  /** All keys, in the order the printer writes them. */
  function AllKeys(forest: Forest): seq<string> {
    if forest == [] then []
    else forest[0].keys + AllKeys(forest[0].children) + AllKeys(forest[1..])
  }

  /** The number of blocks of a forest, at all levels. */
  function Size(f: Forest): nat {
    if f == [] then 0 else 1 + Size(f[0].children) + Size(f[1..])
  }

  /** The forest with every order replaced by the sibling index, counting from `first`. */
  function Reindex(forest: Forest, first: nat := 0): (r: Forest)
    ensures |r| == |forest|
  {
    if forest == [] then []
    else [Block(first, forest[0].keys, Reindex(forest[0].children))] + Reindex(forest[1..], first + 1)
  }

  lemma ReindexAt(forest: Forest, first: nat, i: nat)
    requires i < |forest|
    ensures Reindex(forest, first)[i]
         == Block(first + i, forest[i].keys, Reindex(forest[i].children))
  {
    if i > 0 {
      ReindexAt(forest[1..], first + 1, i - 1);
    }
  }

  lemma AllKeysConcat(f: Forest, g: Forest)
    ensures AllKeys(f + g) == AllKeys(f) + AllKeys(g)
  {
    if f == [] {
      assert f + g == g;
    } else {
      assert (f + g)[1..] == f[1..] + g;
      AllKeysConcat(f[1..], g);
    }
  }

  lemma KeysOfBlock(f: Forest, i: nat)
    requires i < |f|
    ensures forall k :: k in f[i].keys || k in AllKeys(f[i].children) ==> k in AllKeys(f)
  {
    if i > 0 {
      KeysOfBlock(f[1..], i - 1);
    }
  }
}
