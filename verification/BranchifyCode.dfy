/** The matcher compiler as it runs: `go_down_moses` grows the trie in place and the generator
    writes the arms of the emitted code one after the other.
 */
module BranchifyCode {
  import opened Octets
  import opened Branchify

  /** Whether inserting the key would overwrite a result: the assertion of `go_down_moses`. */
  predicate Occupied<R>(branch: ParseBranch<R>, key: string, caseSensitive: bool)
    decreases |key|
  {
    if key == "" then branch.result.Some?
    else
      var i := ChildNamed(branch.children, Fold(key[0], caseSensitive));
      i < |branch.children| && Occupied(branch.children[i], key[1..], caseSensitive)
  }

  lemma {:induction false} OccupiedIsLookup<R>(branch: ParseBranch<R>, key: string, caseSensitive: bool,
                                               config: Config, room: int)
    requires Sound(branch, caseSensitive, config, room)
    ensures Occupied(branch, key, caseSensitive) == Lookup(branch, key).Some?
    decreases |key|
  {
    if key == "" {
    } else {
      ChildrenAgree(branch.children, caseSensitive, config, key[0]);
      var i := ChildFor(branch.children, key[0]);
      if i < |branch.children| {
        var r := room - StepWidth(branch.children[i]);
        OccupiedIsLookup(branch.children[i], key[1..], caseSensitive, config, r);
      }
    }
  }

  /** A key is occupied once the same key is among the options inserted before it. */
  lemma OccupiedIffRepeated<R>(options: seq<(string, R)>, caseSensitive: bool, key: string)
    ensures Occupied(Build(options, caseSensitive), key, caseSensitive) <==>
              exists i :: 0 <= i < |options| && SameKey(options[i].0, key, caseSensitive)
  {
    var any := Config(c => true, SP, LongestKey(options) + 1);
    BuildIsFind(options, caseSensitive, any);
    OccupiedIsLookup(Build(options, caseSensitive), key, caseSensitive, any, any.maxLen);
    FindSome(options, key, caseSensitive);
  }

  lemma {:induction false} FindSome<R>(options: seq<(string, R)>, key: string, caseSensitive: bool)
    ensures Find(options, key, caseSensitive).Some? <==>
              exists i :: 0 <= i < |options| && SameKey(options[i].0, key, caseSensitive)
  {
    if options == [] {
    } else {
      var last := |options| - 1;
      FindSome(options[..last], key, caseSensitive);
      if SameKey(options[last].0, key, caseSensitive) {
      } else if exists i :: 0 <= i < |options| && SameKey(options[i].0, key, caseSensitive) {
        var i :| 0 <= i < |options| && SameKey(options[i].0, key, caseSensitive);
        assert options[..last][i] == options[i];
      }
    }
  }

  /** No assertion of `go_down_moses` fails while the options are inserted exactly when no two of
      their keys are the same. */
  lemma AssertionsHoldIffDistinct<R>(options: seq<(string, R)>, caseSensitive: bool)
    ensures (forall j :: 0 <= j < |options| ==>
              !Occupied(Build(options[..j], caseSensitive), options[j].0, caseSensitive))
            <==> Distinct(options, caseSensitive)
  {
    forall j | 0 <= j < |options|
      ensures Occupied(Build(options[..j], caseSensitive), options[j].0, caseSensitive) <==>
                exists i :: 0 <= i < j && SameKey(options[i].0, options[j].0, caseSensitive)
    {
      OccupiedIffRepeated(options[..j], caseSensitive, options[j].0);
      forall i | 0 <= i < j ensures options[..j][i] == options[i] {}
    }
  }

  class Branch<R> {
    var matches: string
    var result: Option<R>
    var children: seq<Branch<R>>

    ghost var tree: ParseBranch<R>
    ghost var Repr: set<object>

    ghost predicate Valid()
      reads this, Repr
      decreases Repr
    {
      && this in Repr
      && tree.matches == matches && tree.result == result && |tree.children| == |children|
      && (forall i :: 0 <= i < |children| ==>
            && children[i] in Repr && children[i].Repr <= Repr && this !in children[i].Repr
            && children[i].Valid() && children[i].tree == tree.children[i] && children[i].matches != "")
      && forall i, j :: 0 <= i < j < |children| ==> children[i].Repr !! children[j].Repr
    }

    constructor (matches: string)
      ensures Valid() && fresh(Repr) && tree == ParseBranch(matches, None, [])
    {
      this.matches, result, children := matches, None, [];
      tree, Repr := ParseBranch(matches, None, []), {this};
    }

    method GoDownMoses(key: string, result: R, caseSensitive: bool)
      requires Valid()
      requires !Occupied(tree, key, caseSensitive)
      modifies Repr
      ensures Valid() && fresh(Repr - old(Repr))
      ensures tree == Insert(old(tree), key, result, caseSensitive)
      decreases |key|, 0
    {
      if key == "" {
        assert this.result == None;
        this.result := Some(result);
        tree := tree.(result := Some(result));
        return;
      }
      var i := ChildFor(Fold(key[0], caseSensitive));
      if i < |children| {
        GrowChild(i, key[1..], result, caseSensitive);
        return;
      }
      AddChild(Forms(key[0], caseSensitive), key[1..], result, caseSensitive);
    }

    /** A new child that holds only the rest of the key. */
    method AddChild(forms: string, key: string, result: R, caseSensitive: bool)
      requires Valid() && forms != ""
      modifies this
      ensures Valid() && fresh(Repr - old(Repr))
      ensures tree == old(tree).(children :=
                old(tree).children + [Insert(ParseBranch(forms, None, []), key, result, caseSensitive)])
      decreases |key|, 1
    {
      var sub := new Branch(forms);
      sub.GoDownMoses(key, result, caseSensitive);
      InsertKeepsMatches(ParseBranch(forms, None, []), key, result, caseSensitive);
      PushChild(sub);
    }

    /** The child that matches the letter, or the number of children. */
    method ChildFor(first: char) returns (i: nat)
      requires Valid()
      ensures i <= |children| && (i < |children| ==> Lead(tree.children[i]) == Some(first))
      ensures forall j :: 0 <= j < i ==> Lead(tree.children[j]) != Some(first)
    {
      i := 0;
      while i < |children| && children[i].matches[0] != first
        invariant i <= |children|
        invariant forall j :: 0 <= j < i ==> Lead(tree.children[j]) != Some(first)
      {
        i := i + 1;
      }
    }

    method PushChild(sub: Branch<R>)
      requires Valid() && sub.Valid() && sub.matches != "" && Repr !! sub.Repr
      modifies this
      ensures Valid() && Repr == old(Repr) + sub.Repr
      ensures tree == old(tree).(children := old(tree).children + [sub.tree])
    {
      children := children + [sub];
      tree := tree.(children := tree.children + [sub.tree]);
      Repr := Repr + sub.Repr;
    }

    method GrowChild(i: nat, key: string, result: R, caseSensitive: bool)
      requires Valid() && i < |children|
      requires !Occupied(tree.children[i], key, caseSensitive)
      modifies Repr
      ensures Valid() && fresh(Repr - old(Repr))
      ensures tree == old(tree).(children :=
                old(tree).children[i := Insert(old(tree).children[i], key, result, caseSensitive)])
      decreases |key|, 1
    {
      var child := children[i];
      InsertKeepsMatches(child.tree, key, result, caseSensitive);
      child.GoDownMoses(key, result, caseSensitive);
      tree := tree.(children := tree.children[i := child.tree]);
      Repr := Repr + child.Repr;
    }
  }

  method BranchifyOptions<R>(options: seq<(string, R)>, caseSensitive: bool) returns (root: Branch<R>)
    requires Distinct(options, caseSensitive)
    ensures root.Valid() && fresh(root.Repr) && root.tree == Build(options, caseSensitive)
  {
    root := new Branch("");
    var n := 0;
    while n < |options|
      invariant n <= |options|
      invariant root.Valid() && fresh(root.Repr) && root.tree == Build(options[..n], caseSensitive)
    {
      var (key, result) := options[n];
      OccupiedIffRepeated(options[..n], caseSensitive, key);
      root.GoDownMoses(key, result, caseSensitive);
      assert options[..n + 1][..n] == options[..n];
      n := n + 1;
    }
    assert options[..n] == options;
  }

  /** The generator's `r`: the arms for every octet of a branch, in the order they are written. */
  method WriteBranch<R>(branch: Branch<R>, prefix: string) returns (written: seq<Arm<R>>)
    requires branch.Valid()
    ensures written == EmitForms(branch.tree, branch.tree.matches, prefix)
    decreases branch.Repr, 1
  {
    written := [];
    ghost var tree := branch.tree;
    for m := 0 to |branch.matches|
      invariant written + EmitForms(tree, tree.matches[m..], prefix) == EmitForms(tree, tree.matches, prefix)
    {
      var c := branch.matches[m];
      var inner := WriteMatch(branch, prefix + [c]);
      written := written + [Arm(Equals(c), Match(inner))];
    }
  }

  /** The part of `r` between `match read {` and the closing brace. */
  method WriteMatch<R>(branch: Branch<R>, nextPrefix: string) returns (written: seq<Arm<R>>)
    requires branch.Valid()
    ensures written == NodeArms(branch.tree, nextPrefix)
    decreases branch.Repr, 0
  {
    written := [];
    ghost var children := branch.tree.children;
    for k := 0 to |branch.children|
      invariant written + EmitAll(children[k..], nextPrefix) == EmitAll(children, nextPrefix)
    {
      var arms := WriteBranch(branch.children[k], nextPrefix);
      written := written + arms;
    }
    match branch.result {
      case Some(result) => written := written + [Arm(Equals(SP), Return(Some(Known(result))))];
      case None => written := written + [Arm(Equals(SP), Return(Some(Unknown(nextPrefix))))];
    }
    written := written + [Arm(IsValid, FallBack(nextPrefix)), Arm(Otherwise, Return(None))];
  }

  method GenerateBranchifiedMethod<R>(root: Branch<R>) returns (written: seq<Arm<R>>)
    requires root.Valid()
    ensures written == Compile(root.tree.children)
  {
    written := [];
    ghost var children := root.tree.children;
    for k := 0 to |root.children|
      invariant written + EmitAll(children[k..], "") == EmitAll(children, "")
    {
      var arms := WriteBranch(root.children[k], "");
      written := written + arms;
    }
    written := written + [Arm(IsValid, FallBack("")), Arm(Otherwise, Return(None))];
  }

  /** Valid octets for which, with these keys, the emitted code does what it is for. */
  ghost predicate Usable<R>(options: seq<(string, R)>, caseSensitive: bool, config: Config) {
    && !config.valid(config.end) && !config.valid(SP) && StepFree(config)
    && UsableKeys(options, caseSensitive, config) && EndWorks(options, config)
  }

  /** The code generator from the list of keys to the emitted code, which is therefore the
      reference matcher on every input. */
  method CompileOptions<R>(options: seq<(string, R)>, caseSensitive: bool) returns (code: seq<Arm<R>>)
    requires Distinct(options, caseSensitive)
    ensures code == Compile(Build(options, caseSensitive).children)
    ensures forall config: Config, input :: Usable(options, caseSensitive, config) ==>
              Run(code, config, input) == Some(Reference(options, caseSensitive, config, input))
  {
    var root := BranchifyOptions(options, caseSensitive);
    code := GenerateBranchifiedMethod(root);
    forall config: Config, input | Usable(options, caseSensitive, config)
      ensures Run(code, config, input) == Some(Reference(options, caseSensitive, config, input))
    {
      MatcherRefinesReference(options, caseSensitive, config, input);
    }
  }
}
