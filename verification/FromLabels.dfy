/** `FromLabels` of `caddyfile/fromlabels.go` as it happens, over the labels in any order. */
module FromLabels {
  import opened Options
  import opened Tree
  import opened BlockOrder
  import opened Lexer
  import opened Parser
  import opened Printer
  import opened LabelPath
  import opened Labels

  /** Template expansion: the text of a label, unless the template is rejected. */
  type Expansion = string -> Option<string>

  /** The arguments that the labels give to the blocks of their paths. */
  function ArgsOf(labels: map<string, string>, expand: Expansion): map<string, seq<string>> {
    map k | k in labels && expand(labels[k]).Some? :: Args(expand(labels[k]).value)
  }

  /** A result of `FromLabels`: the tree in a map that was built from the labels. */
  ghost predicate Gives(labels: map<string, string>, expand: Expansion, f: Forest) {
    exists a :: Built(a, ArgsOf(labels, expand)) && Grounded(a) && f == ContainerOf(a)
  }

  lemma TextsSnoc(tokens: seq<Token>, t: Token)
    ensures Texts(tokens + [t]) == Texts(tokens) + [t.text]
  {
    if tokens == [] {
      assert [t][1..] == [];
    } else {
      assert (tokens + [t])[1..] == tokens[1..] + [t];
      TextsSnoc(tokens[1..], t);
    }
  }

  /** `parseArgs`. */
  method ParseArgs(text: string) returns (args: seq<string>)
    ensures args == Args(text)
  {
    args := [];
    if |text| == 0 {
      return;
    }
    var ok, tokens := AllTokens(text);
    for i := 0 to |tokens|
      invariant args == Texts(tokens[..i])
    {
      TextsSnoc(tokens[..i], tokens[i]);
      assert tokens[..i + 1] == tokens[..i] + [tokens[i]];
      args := args + [tokens[i].text];
    }
    assert tokens[..|tokens|] == tokens;
  }

  /** Without braces, the arguments are the keys that the text would have as a Caddyfile. */
  lemma ArgsAreKeys(text: string)
    requires text != "" && "{" !in Args(text) && "}" !in Args(text)
    ensures Unmarshal(text).Some? && AllKeys(Unmarshal(text).value) == Args(text)
  {
    var tokens := Tokens(Load(text), 1, 0);
    hide Tokens, Load, ParseContainer, Balance;
    TextsAreWords(tokens);
    ParserConservation(tokens);
    ParserRejects(tokens);
    forall i | 0 <= i <= |tokens| ensures Balance(tokens[..i]) >= 0 {
      forall t | t in tokens[..i] ensures t.text != "}" {
        TextsMember(tokens, t);
      }
      NothingClosed(tokens[..i]);
    }
  }

  lemma {:induction false} TextsMember(tokens: seq<Token>, t: Token)
    requires t in tokens
    ensures t.text in Texts(tokens)
  {
    if t != tokens[0] {
      TextsMember(tokens[1..], t);
    }
  }

  lemma {:induction false} TextsAreWords(tokens: seq<Token>)
    requires "{" !in Texts(tokens) && "}" !in Texts(tokens)
    ensures Texts(tokens) == Words(tokens)
  {
    if tokens != [] {
      assert Texts(tokens)[0] == tokens[0].text && Texts(tokens)[1..] == Texts(tokens[1..]);
      TextsAreWords(tokens[1..]);
    }
  }

  lemma {:induction false} NothingClosed(tokens: seq<Token>)
    requires forall t :: t in tokens ==> t.text != "}"
    ensures Balance(tokens) >= 0
  {
    if tokens != [] {
      NothingClosed(tokens[1..]);
    }
  }

  lemma CreateIs(a: Arena, path: string)
    requires WellFormed(path)
    ensures path in a.blocks ==> Create(a, path) == a
    ensures path !in a.blocks && ParentPath(path) == "" ==> Create(a, path) == Attach(a, path)
    ensures path !in a.blocks && ParentPath(path) != "" ==>
      && WellFormed(ParentPath(path)) && ParentPath(path) in Create(a, ParentPath(path)).blocks
      && Create(a, path) == Attach(Create(a, ParentPath(path)), path)
  {
    hide LastDot, NameOf, OrderOf, ParentPath, Attach;
    AncestorsAre(path);
  }

  /** The map of the blocks and the container, while labels are read. */
  class Builder {
    var blocksByPath: map<string, Entry>
    var container: seq<string>

    constructor ()
      ensures Contents() == EMPTY_ARENA
    {
      blocksByPath, container := map[], [];
    }

    function Contents(): Arena
      reads this
    {
      Arena(blocksByPath, container)
    }

    method GetOrCreateBlock(path: string)
      requires WellFormed(path)
      modifies this
      ensures Contents() == Create(old(Contents()), path)
      decreases |path|
    {
      hide LastDot, WellFormed, NameOf, OrderOf, ParentPath, Create;
      AncestorsAre(path);
      CreateIs(Contents(), path);
      if path in blocksByPath {
        return;
      }
      var parentPath, order, name := ParentPath(path), OrderOf(path), NameOf(path);
      var block := Entry(order, [], []);
      if parentPath != "" {
        GetOrCreateBlock(parentPath);
        block := block.(keys := block.keys + [name]);
        assert block.keys == [name];
        AddBlock(parentPath, path);
      } else {
        container := container + [path];
      }
      blocksByPath := blocksByPath[path := block];
    }

    /** `AddBlock` on the block of a path. */
    method AddBlock(parentPath: string, path: string)
      requires parentPath in blocksByPath
      modifies this`blocksByPath
      ensures blocksByPath
           == var p := old(blocksByPath)[parentPath]; old(blocksByPath)[parentPath := p.(kids := p.kids + [path])]
    {
      var parent := blocksByPath[parentPath];
      blocksByPath := blocksByPath[parentPath := parent.(kids := parent.kids + [path])];
    }

    /** `AddKeys` on the block of a path. */
    method AddKeys(path: string, keys: seq<string>)
      requires path in blocksByPath
      modifies this`blocksByPath
      ensures Contents() == AddArgs(old(Contents()), path, keys)
    {
      var block := blocksByPath[path];
      blocksByPath := blocksByPath[path := block.(keys := block.keys + keys)];
    }
  }

  lemma NothingBuilt()
    ensures Built(EMPTY_ARENA, map[])
  {}

  /** `FromLabels`; the loop takes the labels in an order that nothing is known about. */
  method FromLabels(labels: map<string, string>, expand: Expansion) returns (result: Option<Forest>)
    requires forall k :: k in labels ==> WellFormed(k)
    ensures result.None? <==> exists k :: k in labels && expand(labels[k]).None?
    ensures result.Some? ==> Gives(labels, expand, result.value)
  {
    var builder := new Builder();
    var todo := labels.Keys;
    ghost var args: map<string, seq<string>> := map[];
    NothingBuilt();
    hide Built, Create, AddArgs, WellFormed, Args, Grounded, ContainerOf, LastDot, ParentPath;
    while todo != {}
      invariant fresh(builder) && todo <= labels.Keys && args.Keys == labels.Keys - todo
      invariant forall k :: k in args ==> expand(labels[k]).Some? && args[k] == Args(expand(labels[k]).value)
      invariant Built(builder.Contents(), args)
      decreases |todo|
    {
      var path :| path in todo;
      todo := todo - {path};
      ghost var before := builder.Contents();
      builder.GetOrCreateBlock(path);
      var argsText := expand(labels[path]);
      if argsText.None? {
        return None;
      }
      var more := ParseArgs(argsText.value);
      BuildStep(before, args, path, more);
      builder.AddKeys(path, more);
      args := args[path := more];
    }
    assert args == ArgsOf(labels, expand);
    result := Some(BuiltForest(builder.Contents(), args));
  }

  /** The container, with everything below it. */
  function BuiltForest(a: Arena, ghost args: map<string, seq<string>>): (f: Forest)
    requires Built(a, args)
    ensures Grounded(a) && f == ContainerOf(a)
  {
    ShapeGrounded(a, args);
    ContainerOf(a)
  }

  /**
   Whatever the order in which the labels are read, the tree is the same but for the arrangement of
   siblings, and the text is the same.
   */
  lemma LabelOrder(labels: map<string, string>, expand: Expansion, f: Forest, g: Forest)
    requires Gives(labels, expand, f) && Gives(labels, expand, g)
    ensures SameForest(f, g) && Marshal(f) == Marshal(g)
  {
    var args := ArgsOf(labels, expand);
    hide *;
    var a := GivesArena(labels, expand, f);
    var b := GivesArena(labels, expand, g);
    BuiltAlike(a, b, args);
    SortCanonical(f, g);
    MarshalCanonical(f, g);
  }

  lemma GivesArena(labels: map<string, string>, expand: Expansion, f: Forest) returns (a: Arena)
    requires Gives(labels, expand, f)
    ensures Built(a, ArgsOf(labels, expand)) && Grounded(a) && f == ContainerOf(a)
  {
    a :| Built(a, ArgsOf(labels, expand)) && Grounded(a) && f == ContainerOf(a);
  }
}
