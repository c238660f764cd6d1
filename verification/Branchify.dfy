/** The matcher compiler of `codegen/branchify.rs`: a list of keys becomes a trie, the trie
    becomes nested `match` code with a fallback loop.  The emitted code is an abstract syntax
    tree with an interpreter over the octets that are still to be read.
 */
module Branchify {
  import opened Octets
  import opened Utf8

  // ---------------------------------------------------------------- the trie

  datatype ParseBranch<R> = ParseBranch(matches: string, result: Option<R>, children: seq<ParseBranch<R>>)

  function EmptyBranch<R>(): ParseBranch<R> { ParseBranch("", None, []) }

  /** The octet that identifies a letter of a key. */
  function Fold(c: char, caseSensitive: bool): char { if caseSensitive then c else ToUpper(c) }

  /** Every octet a letter of a key accepts. */
  function Forms(c: char, caseSensitive: bool): string {
    var first := Fold(c, caseSensitive);
    if !caseSensitive && first != ToLower(c) then [first, ToLower(c)] else [first]
  }

  predicate SameKey(key: string, word: string, caseSensitive: bool) {
    |key| == |word| && forall i :: 0 <= i < |key| ==> Fold(key[i], caseSensitive) == Fold(word[i], caseSensitive)
  }

  function Lead<R>(branch: ParseBranch<R>): Option<char> {
    if branch.matches == "" then None else Some(branch.matches[0])
  }

  /** The first child whose leading octet is `first`, or the number of children. */
  function ChildNamed<R>(children: seq<ParseBranch<R>>, first: char): (i: nat)
    ensures i <= |children|
    ensures i < |children| ==> Lead(children[i]) == Some(first)
    ensures forall j :: 0 <= j < i ==> Lead(children[j]) != Some(first)
  {
    if children == [] then 0 else if Lead(children[0]) == Some(first) then 0 else 1 + ChildNamed(children[1..], first)
  }

  function Insert<R>(branch: ParseBranch<R>, key: string, result: R, caseSensitive: bool): ParseBranch<R>
    decreases |key|
  {
    if key == "" then branch.(result := Some(result))
    else
      var i := ChildNamed(branch.children, Fold(key[0], caseSensitive));
      if i < |branch.children| then
        branch.(children := branch.children[i := Insert(branch.children[i], key[1..], result, caseSensitive)])
      else
        var sub := ParseBranch(Forms(key[0], caseSensitive), None, []);
        branch.(children := branch.children + [Insert(sub, key[1..], result, caseSensitive)])
  }

  function Build<R>(options: seq<(string, R)>, caseSensitive: bool): ParseBranch<R> {
    if options == [] then EmptyBranch()
    else
      var (key, result) := options[|options| - 1];
      Insert(Build(options[..|options| - 1], caseSensitive), key, result, caseSensitive)
  }

  /** The first child that accepts `c`, or the number of children. */
  function ChildFor<R>(children: seq<ParseBranch<R>>, c: char): (i: nat)
    ensures i <= |children|
    ensures i < |children| ==> c in children[i].matches
    ensures forall j :: 0 <= j < i ==> c !in children[j].matches
  {
    if children == [] then 0 else if c in children[0].matches then 0 else 1 + ChildFor(children[1..], c)
  }

  /** What the trie says about a word. */
  function Lookup<R>(branch: ParseBranch<R>, word: string): Option<R>
    decreases |word|
  {
    if word == "" then branch.result
    else
      var i := ChildFor(branch.children, word[0]);
      if i < |branch.children| then Lookup(branch.children[i], word[1..]) else None
  }

  /** The parameters of the emitted code.  `end` ends a word in the fallback loop; the nested
      matches always use SP. */
  datatype Config = Config(valid: char -> bool, end: char, maxLen: nat)

  /** The octets of a branch are the forms of one letter, all of them usable. */
  ghost predicate GoodStep<R>(child: ParseBranch<R>, caseSensitive: bool, config: Config) {
    && child.matches != ""
    && child.matches == Forms(child.matches[0], caseSensitive)
    && child.matches[0] == Fold(child.matches[0], caseSensitive)
    && (forall c :: c in child.matches ==> config.valid(c))
  }

  ghost predicate GoodChildren<R>(children: seq<ParseBranch<R>>, caseSensitive: bool, config: Config) {
    && (forall i :: 0 <= i < |children| ==> GoodStep(children[i], caseSensitive, config))
    && forall i, j :: 0 <= i < j < |children| ==> Lead(children[i]) != Lead(children[j])
  }

  /** A trie below a prefix that leaves `room` octets before the length limit, and at least one. */
  ghost predicate Sound<R>(branch: ParseBranch<R>, caseSensitive: bool, config: Config, room: int)
    decreases branch
  {
    && room >= 1
    && GoodChildren(branch.children, caseSensitive, config)
    && forall i, r :: 0 <= i < |branch.children| && r == room - StepWidth(branch.children[i]) ==>
                        Sound(branch.children[i], caseSensitive, config, r)
  }

  /** The length that a step to a child adds to the text read. */
  function StepWidth<R>(child: ParseBranch<R>): nat { if child.matches == "" then 1 else Width(child.matches[0]) }

  /** Both cases of a letter are equally long. */
  lemma FormWidth(letter: char, c: char, caseSensitive: bool)
    requires c in Forms(letter, caseSensitive)
    ensures Width(c) == Width(letter)
  {}

  ghost predicate UsableLetter(letter: char, caseSensitive: bool, config: Config) {
    forall c :: c in Forms(letter, caseSensitive) ==> config.valid(c)
  }

  ghost predicate UsableLetters(key: string, caseSensitive: bool, config: Config) {
    forall i :: 0 <= i < |key| ==> UsableLetter(key[i], caseSensitive, config)
  }

  lemma UsableTail(key: string, caseSensitive: bool, config: Config)
    requires UsableLetters(key, caseSensitive, config) && key != ""
    ensures UsableLetter(key[0], caseSensitive, config)
    ensures UsableLetters(key[1..], caseSensitive, config)
  {}

  lemma FormsAreFolds(f: char, c: char, caseSensitive: bool)
    requires f == Fold(f, caseSensitive)
    ensures c in Forms(f, caseSensitive) <==> Fold(c, caseSensitive) == f
  {}

  /** The child that accepts an octet is the one named by its fold. */
  lemma ChildrenAgree<R>(children: seq<ParseBranch<R>>, caseSensitive: bool, config: Config, c: char)
    requires GoodChildren(children, caseSensitive, config)
    ensures ChildFor(children, c) == ChildNamed(children, Fold(c, caseSensitive))
  {
    var f := Fold(c, caseSensitive);
    forall i | 0 <= i < |children| ensures c in children[i].matches <==> children[i].matches[0] == f {
      assert GoodStep(children[i], caseSensitive, config);
      FormsAreFolds(children[i].matches[0], c, caseSensitive);
    }
  }

  /** Replacing a child by one with the same octets, or adding one under a new name, keeps a
      branch sound. */
  lemma SoundWithChild<R>(branch: ParseBranch<R>, i: nat, child: ParseBranch<R>, caseSensitive: bool,
                          config: Config, room: int)
    requires Sound(branch, caseSensitive, config, room)
    requires GoodStep(child, caseSensitive, config) && Sound(child, caseSensitive, config, room - StepWidth(child))
    requires i <= |branch.children|
    requires i < |branch.children| ==> child.matches == branch.children[i].matches
    requires i == |branch.children| ==> forall j :: 0 <= j < i ==> Lead(branch.children[j]) != Lead(child)
    ensures i < |branch.children| ==>
              Sound(branch.(children := branch.children[i := child]), caseSensitive, config, room)
    ensures i == |branch.children| ==>
              Sound(branch.(children := branch.children + [child]), caseSensitive, config, room)
  {}

  /** The branch that a first letter leads to after `Insert`, grown from `SubBranch`. */
  function SubBranch<R>(branch: ParseBranch<R>, letter: char, caseSensitive: bool): ParseBranch<R> {
    var i := ChildNamed(branch.children, Fold(letter, caseSensitive));
    if i < |branch.children| then branch.children[i] else ParseBranch(Forms(letter, caseSensitive), None, [])
  }

  lemma SubBranchSound<R>(branch: ParseBranch<R>, letter: char, caseSensitive: bool, config: Config, room: int)
    requires Sound(branch, caseSensitive, config, room) && room > Width(letter)
    requires UsableLetter(letter, caseSensitive, config)
    ensures GoodStep(SubBranch(branch, letter, caseSensitive), caseSensitive, config)
    ensures StepWidth(SubBranch(branch, letter, caseSensitive)) == Width(letter)
    ensures Sound(SubBranch(branch, letter, caseSensitive), caseSensitive, config, room - Width(letter))
  {
    FormWidth(letter, Fold(letter, caseSensitive), caseSensitive);
  }

  lemma {:induction false} InsertSound<R>(branch: ParseBranch<R>, key: string, result: R, caseSensitive: bool,
                                          config: Config, room: int)
    requires Sound(branch, caseSensitive, config, room)
    requires UsableLetters(key, caseSensitive, config)
    requires Length(key) < room
    ensures Sound(Insert(branch, key, result, caseSensitive), caseSensitive, config, room)
    decreases |key|
  {
    if key == "" {
    } else {
      var i := ChildNamed(branch.children, Fold(key[0], caseSensitive));
      var sub := SubBranch(branch, key[0], caseSensitive);
      UsableTail(key, caseSensitive, config);
      SubBranchSound(branch, key[0], caseSensitive, config, room);
      InsertSound(sub, key[1..], result, caseSensitive, config, room - Width(key[0]));
      InsertKeepsMatches(sub, key[1..], result, caseSensitive);
      SoundWithChild(branch, i, Insert(sub, key[1..], result, caseSensitive), caseSensitive, config, room);
    }
  }

  lemma InsertKeepsMatches<R>(branch: ParseBranch<R>, key: string, result: R, caseSensitive: bool)
    ensures Insert(branch, key, result, caseSensitive).matches == branch.matches
  {}

  /** The option whose key is the word, looked for from the end of the list. */
  function Find<R>(options: seq<(string, R)>, word: string, caseSensitive: bool): Option<R> {
    if options == [] then None
    else
      var last := |options| - 1;
      if SameKey(options[last].0, word, caseSensitive) then Some(options[last].1)
      else Find(options[..last], word, caseSensitive)
  }

  lemma SameKeyStep(key: string, word: string, caseSensitive: bool)
    requires key != "" && word != ""
    ensures SameKey(key, word, caseSensitive) <==>
              Fold(key[0], caseSensitive) == Fold(word[0], caseSensitive) &&
              SameKey(key[1..], word[1..], caseSensitive)
  {}

  /** Where a name is found once the child at `i` was replaced or added under the name `f`. */
  lemma NamedAfter<R>(before: seq<ParseBranch<R>>, after: seq<ParseBranch<R>>, i: nat, f: char, g: char)
    requires i <= |before| && i < |after|
    requires |after| == if i < |before| then |before| else |before| + 1
    requires forall j :: 0 <= j < |before| && j != i ==> after[j] == before[j]
    requires i == ChildNamed(before, f) && Lead(after[i]) == Some(f)
    ensures f == g ==> ChildNamed(after, g) == i
    ensures f != g ==>
              if ChildNamed(before, g) < |before| then ChildNamed(after, g) == ChildNamed(before, g)
              else ChildNamed(after, g) == |after|
  {}

  /** The child taken on an octet, before and after `Insert`. */
  lemma ChildAfterInsert<R>(branch: ParseBranch<R>, key: string, result: R, caseSensitive: bool,
                            config: Config, c: char)
    requires key != ""
    requires GoodChildren(branch.children, caseSensitive, config)
    requires GoodChildren(Insert(branch, key, result, caseSensitive).children, caseSensitive, config)
    ensures
      var after := Insert(branch, key, result, caseSensitive).children;
      var i, j := ChildFor(branch.children, c), ChildFor(after, c);
      if Fold(c, caseSensitive) == Fold(key[0], caseSensitive) then
        && j < |after| && after[j] == Insert(SubBranch(branch, key[0], caseSensitive), key[1..], result, caseSensitive)
        && (i < |branch.children| ==> branch.children[i] == SubBranch(branch, key[0], caseSensitive))
        && (i == |branch.children| ==> SubBranch(branch, key[0], caseSensitive) ==
                                         ParseBranch(Forms(key[0], caseSensitive), None, []))
      else if i < |branch.children| then j < |after| && after[j] == branch.children[i]
      else j == |after|
  {
    var f := Fold(key[0], caseSensitive);
    var after := Insert(branch, key, result, caseSensitive);
    ChildrenAgree(branch.children, caseSensitive, config, c);
    ChildrenAgree(after.children, caseSensitive, config, c);
    InsertKeepsMatches(SubBranch(branch, key[0], caseSensitive), key[1..], result, caseSensitive);
    NamedAfter(branch.children, after.children, ChildNamed(branch.children, f), f, Fold(c, caseSensitive));
  }

  /** Inserting a key changes what the trie says about the words that are that key, and about
      no other word. */
  lemma {:induction false} LookupInsert<R>(branch: ParseBranch<R>, key: string, result: R, caseSensitive: bool,
                                           config: Config, room: int, word: string)
    requires Sound(branch, caseSensitive, config, room)
    requires UsableLetters(key, caseSensitive, config)
    requires Length(key) < room
    ensures Lookup(Insert(branch, key, result, caseSensitive), word) ==
              if SameKey(key, word, caseSensitive) then Some(result) else Lookup(branch, word)
    decreases |key|
  {
    if key == "" || word == "" {
    } else {
      InsertSound(branch, key, result, caseSensitive, config, room);
      ChildAfterInsert(branch, key, result, caseSensitive, config, word[0]);
      SameKeyStep(key, word, caseSensitive);
      if Fold(word[0], caseSensitive) == Fold(key[0], caseSensitive) {
        var sub := SubBranch(branch, key[0], caseSensitive);
        UsableTail(key, caseSensitive, config);
        SubBranchSound(branch, key[0], caseSensitive, config, room);
        LookupInsert(sub, key[1..], result, caseSensitive, config, room - Width(key[0]), word[1..]);
      }
    }
  }

  ghost predicate Distinct<R>(options: seq<(string, R)>, caseSensitive: bool) {
    forall i, j :: 0 <= i < j < |options| ==> !SameKey(options[i].0, options[j].0, caseSensitive)
  }

  ghost predicate UsableKeys<R>(options: seq<(string, R)>, caseSensitive: bool, config: Config) {
    && config.maxLen >= 1
    && forall i :: 0 <= i < |options| ==>
         UsableLetters(options[i].0, caseSensitive, config) && Length(options[i].0) < config.maxLen
  }

  /** The trie built from a list of options is the list, looked up by key. */
  lemma {:induction false} BuildIsFind<R>(options: seq<(string, R)>, caseSensitive: bool, config: Config)
    requires UsableKeys(options, caseSensitive, config)
    ensures Sound(Build(options, caseSensitive), caseSensitive, config, config.maxLen)
    ensures forall word {:trigger Lookup(Build(options, caseSensitive), word)} ::
              Lookup(Build(options, caseSensitive), word) == Find(options, word, caseSensitive)
  {
    if options == [] {
    } else {
      var last := |options| - 1;
      var before := Build(options[..last], caseSensitive);
      var (key, result) := options[last];
      BuildIsFind(options[..last], caseSensitive, config);
      InsertSound(before, key, result, caseSensitive, config, config.maxLen);
      forall word ensures Lookup(Build(options, caseSensitive), word) == Find(options, word, caseSensitive) {
        LookupInsert(before, key, result, caseSensitive, config, config.maxLen, word);
      }
    }
  }

  // ---------------------------------------------------------------- the emitted code

  datatype Found<R> = Known(result: R) | Unknown(word: string)

  /** `Some(b) if b == c`, `Some(b) if valid(b)` and `_`. */
  datatype Guard = Equals(c: char) | IsValid | Otherwise

  /** What an arm does: read and match again, `return`, or yield the text read so far to the
      fallback loop. */
  datatype Action<R> = Match(arms: seq<Arm<R>>) | Return(value: Option<Found<R>>) | FallBack(prefix: string)

  datatype Arm<R> = Arm(guard: Guard, action: Action<R>)

  function EndArms<R>(branch: ParseBranch<R>, prefix: string): seq<Arm<R>> {
    var atEnd := match branch.result case Some(r) => Known(r) case None => Unknown(prefix);
    [Arm(Equals(SP), Return(Some(atEnd))), Arm(IsValid, FallBack(prefix)), Arm(Otherwise, Return(None))]
  }

  /** The body of the match entered once `prefix` was read. */
  function NodeArms<R>(branch: ParseBranch<R>, prefix: string): seq<Arm<R>>
    decreases branch, 0
  {
    EmitAll(branch.children, prefix) + EndArms(branch, prefix)
  }

  function EmitForms<R>(branch: ParseBranch<R>, forms: string, prefix: string): seq<Arm<R>>
    decreases branch, 1, |forms|
  {
    if forms == "" then []
    else [Arm(Equals(forms[0]), Match(NodeArms(branch, prefix + [forms[0]])))] + EmitForms(branch, forms[1..], prefix)
  }

  function EmitAll<R>(branches: seq<ParseBranch<R>>, prefix: string): seq<Arm<R>>
    decreases branches
  {
    if branches == [] then []
    else EmitForms(branches[0], branches[0].matches, prefix) + EmitAll(branches[1..], prefix)
  }

  function Compile<R>(branches: seq<ParseBranch<R>>): seq<Arm<R>> {
    EmitAll(branches, "") + [Arm(IsValid, FallBack("")), Arm(Otherwise, Return(None))]
  }

  // ---------------------------------------------------------------- its interpreter

  predicate Accepts(guard: Guard, b: Option<char>, config: Config) {
    match guard
    case Equals(c) => b == Some(c)
    case IsValid => b.Some? && config.valid(b.value)
    case Otherwise => true
  }

  /** The first arm that accepts what was read, or the number of arms. */
  function Pick<R>(arms: seq<Arm<R>>, b: Option<char>, config: Config): (i: nat)
    ensures i <= |arms|
    ensures i < |arms| ==> Accepts(arms[i].guard, b, config)
    ensures forall j :: 0 <= j < i ==> !Accepts(arms[j].guard, b, config)
  {
    if arms == [] then 0 else if Accepts(arms[0].guard, b, config) then 0 else 1 + Pick(arms[1..], b, config)
  }

  function NextOctet(input: string): Option<char> { if input == "" then None else Some(input[0]) }

  function Rest(input: string): string { if input == "" then "" else input[1..] }

  /** How a match ends; `Stuck` would be a match without an arm for what was read. */
  datatype Exit<R> = Returned(value: Option<Found<R>>, rest: string)
                   | FellBack(prefix: string, next: char, rest: string)
                   | Stuck

  function RunMatch<R>(arms: seq<Arm<R>>, config: Config, input: string): Exit<R>
    decreases arms
  {
    var b := NextOctet(input);
    var i := Pick(arms, b, config);
    if i == |arms| then Stuck
    else Perform(arms[i], b, config, Rest(input))
  }

  function Perform<R>(arm: Arm<R>, b: Option<char>, config: Config, rest: string): Exit<R>
    decreases arm
  {
    match arm.action
    case Match(inner) => RunMatch(inner, config, rest)
    case Return(value) => Returned(value, rest)
    case FallBack(prefix) => if b.Some? then FellBack(prefix, b.value, rest) else Stuck
  }

  /** The loop after the match: collect the rest of an unknown word. */
  function RunLoop<R>(s: string, config: Config, input: string): (Option<Found<R>>, string)
    decreases |input|
  {
    if input == "" then (None, "")
    else if input[0] == config.end then (Some(Unknown(s)), input[1..])
    else if config.valid(input[0]) then
      if Length(s) == config.maxLen then (None, input[1..]) else RunLoop(s + [input[0]], config, input[1..])
    else (None, input[1..])
  }

  function Finish<R>(exit: Exit<R>, config: Config): Option<(Option<Found<R>>, string)> {
    match exit
    case Returned(value, rest) => Some((value, rest))
    case FellBack(prefix, next, rest) => Some(RunLoop(prefix + [next], config, rest))
    case Stuck => None
  }

  /** Running the emitted method on the octets to come: its result and what it leaves unread. */
  function Run<R>(code: seq<Arm<R>>, config: Config, input: string): Option<(Option<Found<R>>, string)> {
    Finish(RunMatch(code, config, input), config)
  }

  // ---------------------------------------------------------------- what it should do

  function LeadingValid(config: Config, input: string): (n: nat)
    ensures n <= |input|
    ensures forall i :: 0 <= i < n ==> config.valid(input[i])
    ensures n < |input| ==> !config.valid(input[n])
  {
    if input == "" || !config.valid(input[0]) then 0 else 1 + LeadingValid(config, input[1..])
  }

  /** How many octets of the text fit a length limit. */
  function Fitting(s: string, limit: int): (k: nat)
    ensures k <= |s|
  {
    if s == "" || Width(s[0]) > limit then 0 else 1 + Fitting(s[1..], limit - Width(s[0]))
  }

  /** The valid octets up to the end octet.  Nothing is read for a word over the limit, an invalid
      octet or the end of the input; the offending octet is consumed. */
  function FittingWord(config: Config, limit: int, input: string): (Option<string>, string) {
    var n := LeadingValid(config, input);
    var k := Fitting(input[..n], limit);
    if k < n then (None, input[k + 1..])
    else if n == |input| then (None, "")
    else (if input[n] == config.end then Some(input[..n]) else None, input[n + 1..])
  }

  /** A word that fits the limit and is not empty. */
  function ReadWord(config: Config, input: string): (Option<string>, string) {
    var (word, rest) := FittingWord(config, config.maxLen, input);
    (if word == Some("") then None else word, rest)
  }

  function Classify<R>(options: seq<(string, R)>, word: string, caseSensitive: bool): Found<R> {
    match Find(options, word, caseSensitive) case Some(r) => Known(r) case None => Unknown(word)
  }

  function Reference<R>(options: seq<(string, R)>, caseSensitive: bool, config: Config, input: string)
    : (Option<Found<R>>, string)
  {
    var (word, rest) := ReadWord(config, input);
    (match word case Some(w) => Some(Classify(options, w, caseSensitive)) case None => None, rest)
  }

  // ---------------------------------------------------------------- why it does

  lemma PickAppend<R>(a: seq<Arm<R>>, b: seq<Arm<R>>, o: Option<char>, config: Config)
    ensures Pick(a + b, o, config) ==
              if Pick(a, o, config) < |a| then Pick(a, o, config) else |a| + Pick(b, o, config)
  {
    var i := Pick(a + b, o, config);
    if i < |a| { assert (a + b)[i] == a[i]; }
    if Pick(a, o, config) < |a| { assert (a + b)[Pick(a, o, config)] == a[Pick(a, o, config)]; }
    forall j | 0 <= j < |b| ensures (a + b)[|a| + j] == b[j] {}
  }

  /** The action the emitted match takes on an octet. */
  function Chosen<R>(arms: seq<Arm<R>>, o: Option<char>, config: Config): Option<Action<R>> {
    var i := Pick(arms, o, config);
    if i < |arms| then Some(arms[i].action) else None
  }

  lemma ChosenAppend<R>(a: seq<Arm<R>>, b: seq<Arm<R>>, o: Option<char>, config: Config)
    ensures Chosen(a + b, o, config) ==
              if Chosen(a, o, config).Some? then Chosen(a, o, config) else Chosen(b, o, config)
  {
    PickAppend(a, b, o, config);
  }

  lemma {:induction false} ChosenForms<R>(branch: ParseBranch<R>, forms: string, prefix: string, o: Option<char>,
                                          config: Config)
    ensures Chosen(EmitForms(branch, forms, prefix), o, config) ==
              if o.Some? && o.value in forms then Some(Match(NodeArms(branch, prefix + [o.value]))) else None
    decreases |forms|
  {
    if forms == "" {
    } else {
      ChosenForms(branch, forms[1..], prefix, o, config);
      var first := [Arm(Equals(forms[0]), Match(NodeArms(branch, prefix + [forms[0]])))];
      ChosenAppend(first, EmitForms(branch, forms[1..], prefix), o, config);
    }
  }

  /** Among the arms of several branches, the one taken belongs to the first child that accepts
      the octet. */
  lemma {:induction false} ChosenAll<R>(branches: seq<ParseBranch<R>>, prefix: string, o: Option<char>, config: Config)
    ensures Chosen(EmitAll(branches, prefix), o, config) ==
              if o.None? then None
              else var i := ChildFor(branches, o.value);
                   if i < |branches| then Some(Match(NodeArms(branches[i], prefix + [o.value]))) else None
  {
    if branches == [] {
    } else {
      ChosenAll(branches[1..], prefix, o, config);
      ChosenForms(branches[0], branches[0].matches, prefix, o, config);
      ChosenAppend(EmitForms(branches[0], branches[0].matches, prefix), EmitAll(branches[1..], prefix), o, config);
    }
  }

  lemma ChosenEnd<R>(branch: ParseBranch<R>, prefix: string, o: Option<char>, config: Config)
    ensures Chosen(EndArms(branch, prefix), o, config) ==
              if o == Some(SP) then
                Some(Return(Some(match branch.result case Some(r) => Known(r) case None => Unknown(prefix))))
              else if o.Some? && config.valid(o.value) then Some(FallBack(prefix))
              else Some(Return(None))
  {
    var arms := EndArms(branch, prefix);
    assert !Accepts(arms[0].guard, o, config) || o == Some(SP);
    assert !Accepts(arms[1].guard, o, config) || (o.Some? && config.valid(o.value));
    assert Accepts(arms[2].guard, o, config);
  }

  lemma RunChosen<R>(arms: seq<Arm<R>>, config: Config, input: string)
    ensures RunMatch(arms, config, input) ==
              match Chosen(arms, NextOctet(input), config)
              case None => Stuck
              case Some(Match(inner)) => RunMatch(inner, config, Rest(input))
              case Some(Return(value)) => Returned(value, Rest(input))
              case Some(FallBack(prefix)) =>
                if input != "" then FellBack(prefix, input[0], input[1..]) else Stuck
  {}

  /** One step of the emitted code below a prefix, in terms of the trie. */
  lemma NodeStep<R>(branch: ParseBranch<R>, prefix: string, config: Config, input: string)
    ensures
      RunMatch(NodeArms(branch, prefix), config, input) ==
      if input == "" then Returned(None, "")
      else
        var i := ChildFor(branch.children, input[0]);
        if i < |branch.children| then RunMatch(NodeArms(branch.children[i], prefix + [input[0]]), config, input[1..])
        else if input[0] == SP then
          Returned(Some(match branch.result case Some(r) => Known(r) case None => Unknown(prefix)), input[1..])
        else if config.valid(input[0]) then FellBack(prefix, input[0], input[1..])
        else Returned(None, input[1..])
  {
    var b := NextOctet(input);
    RunChosen(NodeArms(branch, prefix), config, input);
    ChosenAll(branch.children, prefix, b, config);
    ChosenAppend(EmitAll(branch.children, prefix), EndArms(branch, prefix), b, config);
    ChosenEnd(branch, prefix, b, config);
  }

  /** The emitted code below a prefix as a walk down the trie. */
  function Walk<R>(branch: ParseBranch<R>, prefix: string, config: Config, input: string): Exit<R>
    decreases |input|
  {
    if input == "" then Returned(None, "")
    else
      var i := ChildFor(branch.children, input[0]);
      if i < |branch.children| then Walk(branch.children[i], prefix + [input[0]], config, input[1..])
      else if input[0] == SP then
        Returned(Some(match branch.result case Some(r) => Known(r) case None => Unknown(prefix)), input[1..])
      else if config.valid(input[0]) then FellBack(prefix, input[0], input[1..])
      else Returned(None, input[1..])
  }

  lemma {:induction false} MatchIsWalk<R>(branch: ParseBranch<R>, prefix: string, config: Config, input: string)
    ensures RunMatch(NodeArms(branch, prefix), config, input) == Walk(branch, prefix, config, input)
    decreases |input|
  {
    NodeStep(branch, prefix, config, input);
    if input != "" && ChildFor(branch.children, input[0]) < |branch.children| {
      var child := branch.children[ChildFor(branch.children, input[0])];
      MatchIsWalk(child, prefix + [input[0]], config, input[1..]);
    }
  }

  lemma RootStep<R>(branches: seq<ParseBranch<R>>, config: Config, input: string)
    ensures
      RunMatch(Compile(branches), config, input) ==
      if input == "" then Returned(None, "")
      else
        var i := ChildFor(branches, input[0]);
        if i < |branches| then Walk(branches[i], "" + [input[0]], config, input[1..])
        else if config.valid(input[0]) then FellBack("", input[0], input[1..])
        else Returned(None, input[1..])
  {
    var b := NextOctet(input);
    RunChosen(Compile(branches), config, input);
    ChosenAll(branches, "", b, config);
    var tail: seq<Arm<R>> := [Arm(IsValid, FallBack("")), Arm(Otherwise, Return(None))];
    ChosenAppend(EmitAll(branches, ""), tail, b, config);
    assert Accepts(tail[0].guard, b, config) == (b.Some? && config.valid(b.value));
    assert Accepts(tail[1].guard, b, config);
    if input != "" && ChildFor(branches, input[0]) < |branches| {
      MatchIsWalk(branches[ChildFor(branches, input[0])], "" + [input[0]], config, input[1..]);
    }
  }

  /** The reference, continued after the valid octets `s`. */
  function Continue<R>(options: seq<(string, R)>, caseSensitive: bool, config: Config, s: string, input: string)
    : (Option<Found<R>>, string)
    decreases |input|
  {
    if input == "" then (None, "")
    else if input[0] == config.end then (Some(Classify(options, s, caseSensitive)), input[1..])
    else if config.valid(input[0]) then
      if Length(s) + Width(input[0]) > config.maxLen then (None, input[1..])
      else Continue(options, caseSensitive, config, s + [input[0]], input[1..])
    else (None, input[1..])
  }

  /** The octets that can be valid are octets, and no word of them steps over the limit: they all
      have length 1, or all have length 2 and the limit is even. */
  ghost predicate StepFree(config: Config) {
    || (forall c :: config.valid(c) ==> IsAscii(c))
    || (config.maxLen % 2 == 0 && forall c :: config.valid(c) ==> 128 <= c as int < 256)
  }

  ghost predicate Fits(config: Config, s: string) {
    && Length(s) <= config.maxLen
    && ((forall c :: config.valid(c) ==> IsAscii(c)) || (config.maxLen % 2 == 0 && Length(s) % 2 == 0))
  }

  /** A valid octet fits after a text that fits, unless the text is as long as the limit. */
  lemma FitsPush(config: Config, s: string, c: char)
    requires StepFree(config) && Fits(config, s) && config.valid(c)
    ensures Length(s) + Width(c) > config.maxLen <==> Length(s) == config.maxLen
    ensures Length(s) < config.maxLen ==> Fits(config, s + [c])
  {
    LengthPush(s, c);
    OctetWidth(c);
  }

  /** When no key continues `s`, the fallback loop is the reference. */
  lemma {:induction false} LoopContinues<R>(options: seq<(string, R)>, caseSensitive: bool, config: Config,
                                            s: string, input: string)
    requires StepFree(config) && Fits(config, s)
    requires forall more :: Find(options, s + more, caseSensitive) == None
    ensures RunLoop(s, config, input) == Continue(options, caseSensitive, config, s, input)
    decreases |input|
  {
    assert s + "" == s;
    if input != "" && config.valid(input[0]) && Length(s) != config.maxLen {
      FitsPush(config, s, input[0]);
      forall more ensures Find(options, (s + [input[0]]) + more, caseSensitive) == None {
        assert (s + [input[0]]) + more == s + ([input[0]] + more);
      }
      LoopContinues(options, caseSensitive, config, s + [input[0]], input[1..]);
    }
  }

  /** What the trie below a child says, from what the trie says. */
  lemma LookupBelow<R>(options: seq<(string, R)>, caseSensitive: bool, branch: ParseBranch<R>, prefix: string, c: char)
    requires forall word {:trigger Lookup(branch, word)} ::
               Lookup(branch, word) == Find(options, prefix + word, caseSensitive)
    ensures
      var i := ChildFor(branch.children, c);
      forall word :: Find(options, (prefix + [c]) + word, caseSensitive) ==
                     if i < |branch.children| then Lookup(branch.children[i], word) else None
  {
    var i := ChildFor(branch.children, c);
    forall word ensures Find(options, (prefix + [c]) + word, caseSensitive) ==
                        if i < |branch.children| then Lookup(branch.children[i], word) else None
    {
      assert (prefix + [c]) + word == prefix + ([c] + word);
      assert ([c] + word)[1..] == word;
      assert Lookup(branch, [c] + word) == Find(options, prefix + ([c] + word), caseSensitive);
    }
  }

  /** The trie below `prefix` holds what the options say about the words that start with it. */
  ghost predicate Represents<R>(branch: ParseBranch<R>, prefix: string, options: seq<(string, R)>, caseSensitive: bool,
                                config: Config)
  {
    && Sound(branch, caseSensitive, config, config.maxLen - Length(prefix))
    && forall word {:trigger Lookup(branch, word)} ::
         Lookup(branch, word) == Find(options, prefix + word, caseSensitive)
  }

  lemma ChildRepresents<R>(options: seq<(string, R)>, caseSensitive: bool, config: Config,
                           branch: ParseBranch<R>, prefix: string, c: char)
    requires Represents(branch, prefix, options, caseSensitive, config)
    requires ChildFor(branch.children, c) < |branch.children|
    ensures Represents(branch.children[ChildFor(branch.children, c)], prefix + [c], options, caseSensitive, config)
    ensures config.valid(c) && Length(prefix) + Width(c) < config.maxLen
  {
    var child := branch.children[ChildFor(branch.children, c)];
    assert GoodStep(child, caseSensitive, config);
    FormWidth(child.matches[0], c, caseSensitive);
    LengthPush(prefix, c);
    LookupBelow(options, caseSensitive, branch, prefix, c);
  }

  /** Where the trie has no child for the next octet, the emitted code is the reference. */
  lemma LeafContinues<R>(options: seq<(string, R)>, caseSensitive: bool, config: Config,
                         branch: ParseBranch<R>, prefix: string, input: string)
    requires config.end == SP && !config.valid(SP) && StepFree(config) && Fits(config, prefix)
    requires Represents(branch, prefix, options, caseSensitive, config)
    requires input == "" || ChildFor(branch.children, input[0]) == |branch.children|
    ensures Finish(Walk(branch, prefix, config, input), config) ==
              Some(Continue(options, caseSensitive, config, prefix, input))
  {
    if input == "" {
    } else if input[0] == SP {
      assert prefix + "" == prefix && Lookup(branch, "") == branch.result;
    } else if config.valid(input[0]) {
      LookupBelow(options, caseSensitive, branch, prefix, input[0]);
      FitsPush(config, prefix, input[0]);
      LoopContinues(options, caseSensitive, config, prefix + [input[0]], input[1..]);
    }
  }

  /** The match below a prefix, with the loop after it, is the reference continued after the
      prefix. */
  lemma {:induction false} NodeContinues<R>(options: seq<(string, R)>, caseSensitive: bool, config: Config,
                                            branch: ParseBranch<R>, prefix: string, input: string)
    requires config.end == SP && !config.valid(SP) && StepFree(config) && Fits(config, prefix)
    requires Represents(branch, prefix, options, caseSensitive, config)
    ensures Finish(Walk(branch, prefix, config, input), config) ==
              Some(Continue(options, caseSensitive, config, prefix, input))
    decreases |input|
  {
    if input == "" || ChildFor(branch.children, input[0]) == |branch.children| {
      LeafContinues(options, caseSensitive, config, branch, prefix, input);
    } else {
      var child := branch.children[ChildFor(branch.children, input[0])];
      ChildRepresents(options, caseSensitive, config, branch, prefix, input[0]);
      FitsPush(config, prefix, input[0]);
      NodeContinues(options, caseSensitive, config, child, prefix + [input[0]], input[1..]);
    }
  }

  /** One more valid octet that fits. */
  lemma FittingWordStep(config: Config, limit: int, input: string)
    requires input != "" && config.valid(input[0]) && Width(input[0]) <= limit
    ensures FittingWord(config, limit, input) ==
              match FittingWord(config, limit - Width(input[0]), input[1..])
              case (Some(w), rest) => (Some([input[0]] + w), rest)
              case (None, rest) => (None, rest)
  {
    var n := LeadingValid(config, input);
    assert input[..n][1..] == input[1..][..n - 1] && input[..n] == [input[0]] + input[1..][..n - 1];
  }

  /** The step-by-step reference reads exactly the leading valid octets. */
  lemma {:induction false} ContinueReads<R>(options: seq<(string, R)>, caseSensitive: bool, config: Config,
                                            s: string, input: string)
    requires !config.valid(config.end)
    ensures Continue(options, caseSensitive, config, s, input) ==
              match FittingWord(config, config.maxLen - Length(s), input)
              case (Some(w), rest) => (Some(Classify(options, s + w, caseSensitive)), rest)
              case (None, rest) => (None, rest)
    decreases |input|
  {
    if input == "" || !config.valid(input[0]) {
      assert s + input[..0] == s;
    } else if Length(s) + Width(input[0]) <= config.maxLen {
      LengthPush(s, input[0]);
      FittingWordStep(config, config.maxLen - Length(s), input);
      ContinueReads(options, caseSensitive, config, s + [input[0]], input[1..]);
      var word := FittingWord(config, config.maxLen - Length(s + [input[0]]), input[1..]).0;
      if word.Some? { Associative(s, [input[0]], word.value); }
    }
  }

  /** The outermost match differs from the one below a prefix in having no arm for SP. */
  lemma RootLikeNode<R>(root: ParseBranch<R>, options: seq<(string, R)>, caseSensitive: bool, config: Config,
                        input: string)
    requires config.end == SP && !config.valid(SP)
    requires Represents(root, "", options, caseSensitive, config)
    ensures RunMatch(Compile(root.children), config, input) ==
              if NextOctet(input) == Some(SP) then Returned(None, input[1..])
              else Walk(root, "", config, input)
  {
    RootStep(root.children, config, input);
    if input != "" && ChildFor(root.children, input[0]) < |root.children| {
      ChildRepresents(options, caseSensitive, config, root, "", input[0]);
    }
  }

  lemma ReferenceContinues<R>(options: seq<(string, R)>, caseSensitive: bool, config: Config, input: string)
    requires !config.valid(config.end)
    ensures Reference(options, caseSensitive, config, input) ==
              if NextOctet(input) == Some(config.end) then (None, input[1..])
              else Continue(options, caseSensitive, config, "", input)
  {
    ContinueReads(options, caseSensitive, config, "", input);
    var word := FittingWord(config, config.maxLen, input).0;
    if word.Some? { assert "" + word.value == word.value; }
  }

  lemma RootRepresents<R>(root: ParseBranch<R>, options: seq<(string, R)>, caseSensitive: bool, config: Config)
    requires Sound(root, caseSensitive, config, config.maxLen)
    requires forall word {:trigger Lookup(root, word)} :: Lookup(root, word) == Find(options, word, caseSensitive)
    ensures Represents(root, "", options, caseSensitive, config)
  {
    forall word ensures Lookup(root, word) == Find(options, "" + word, caseSensitive) {
      assert "" + word == word;
    }
  }

  // ---------------------------------------------------------------- no key but the empty one

  ghost predicate NoKeys<R>(options: seq<(string, R)>) { forall i :: 0 <= i < |options| ==> options[i].0 == "" }

  lemma {:induction false} NoKeysNoChildren<R>(options: seq<(string, R)>, caseSensitive: bool)
    requires NoKeys(options)
    ensures Build(options, caseSensitive).children == []
  {
    if options != [] { NoKeysNoChildren(options[..|options| - 1], caseSensitive); }
  }

  lemma {:induction false} NoKeysFindNothing<R>(options: seq<(string, R)>, caseSensitive: bool, word: string)
    requires NoKeys(options) && word != ""
    ensures Find(options, word, caseSensitive) == None
  {
    if options != [] { NoKeysFindNothing(options[..|options| - 1], caseSensitive, word); }
  }

  /** Without keys the emitted code is the reference whatever ends a word. */
  lemma NoKeysRefine<R>(options: seq<(string, R)>, caseSensitive: bool, config: Config, input: string)
    requires !config.valid(config.end) && StepFree(config) && config.maxLen >= 1 && NoKeys(options)
    ensures Run(Compile(Build(options, caseSensitive).children), config, input) ==
              Some(Reference(options, caseSensitive, config, input))
  {
    NoKeysNoChildren(options, caseSensitive);
    RootStep(Build(options, caseSensitive).children, config, input);
    ReferenceContinues(options, caseSensitive, config, input);
    if input != "" && config.valid(input[0]) {
      FitsPush(config, "", input[0]);
      assert "" + [input[0]] == [input[0]];
      forall more ensures Find(options, [input[0]] + more, caseSensitive) == None {
        NoKeysFindNothing(options, caseSensitive, [input[0]] + more);
      }
      LoopContinues(options, caseSensitive, config, [input[0]], input[1..]);
    }
  }

  /** `end` does what it is documented to do: it is SP, or nothing is matched letter by letter. */
  ghost predicate EndWorks<R>(options: seq<(string, R)>, config: Config) { config.end == SP || NoKeys(options) }

  /** The compiled matcher gives the result of the reference on every input and leaves the same
      octets unread. */
  lemma MatcherRefinesReference<R>(options: seq<(string, R)>, caseSensitive: bool, config: Config, input: string)
    requires !config.valid(config.end) && !config.valid(SP) && StepFree(config)
    requires UsableKeys(options, caseSensitive, config) && EndWorks(options, config)
    ensures Run(Compile(Build(options, caseSensitive).children), config, input) ==
              Some(Reference(options, caseSensitive, config, input))
  {
    if config.end == SP {
      var root := Build(options, caseSensitive);
      BuildIsFind(options, caseSensitive, config);
      RootRepresents(root, options, caseSensitive, config);
      RootLikeNode(root, options, caseSensitive, config, input);
      NodeContinues(options, caseSensitive, config, root, "", input);
      ReferenceContinues(options, caseSensitive, config, input);
    } else {
      NoKeysRefine(options, caseSensitive, config, input);
    }
  }

  // ---------------------------------------------------------------- where the code departs from the reference

  /** The branch a path leads to. */
  function Descend<R>(branch: ParseBranch<R>, path: string): ParseBranch<R>
    decreases |path|
  {
    if path == "" then branch
    else
      var i := ChildFor(branch.children, path[0]);
      if i < |branch.children| then Descend(branch.children[i], path[1..]) else EmptyBranch()
  }

  lemma {:induction false} DescendSound<R>(branch: ParseBranch<R>, path: string, caseSensitive: bool,
                                           config: Config, room: int)
    requires Sound(branch, caseSensitive, config, room)
    requires Length(path) < room
    ensures Sound(Descend(branch, path), caseSensitive, config, room - Length(path))
    decreases |path|
  {
    if path == "" {
    } else {
      var i := ChildFor(branch.children, path[0]);
      if i < |branch.children| {
        var child := branch.children[i];
        assert GoodStep(child, caseSensitive, config);
        FormWidth(child.matches[0], path[0], caseSensitive);
        DescendSound(child, path[1..], caseSensitive, config, room - Width(path[0]));
        assert room - Width(path[0]) - Length(path[1..]) == room - Length(path);
      }
    }
  }

  /** The emitted code follows a path of the trie without leaving it. */
  lemma {:induction false} DescendRun<R>(branch: ParseBranch<R>, prefix: string, path: string, config: Config,
                                         input: string)
    requires path == "" || Lookup(branch, path).Some?
    ensures Walk(branch, prefix, config, path + input) ==
              Walk(Descend(branch, path), prefix + path, config, input)
    decreases |path|
  {
    if path == "" {
      assert path + input == input && prefix + path == prefix;
    } else {
      var i := ChildFor(branch.children, path[0]);
      DescendRun(branch.children[i], prefix + [path[0]], path[1..], config, input);
      assert (path + input)[1..] == path[1..] + input;
      assert (prefix + [path[0]]) + path[1..] == prefix + path;
    }
  }

  lemma NoChildForSpace<R>(branch: ParseBranch<R>, caseSensitive: bool, config: Config, room: int)
    requires Sound(branch, caseSensitive, config, room) && !config.valid(SP)
    ensures ChildFor(branch.children, SP) == |branch.children|
  {
    forall i | 0 <= i < |branch.children| ensures SP !in branch.children[i].matches {
      assert GoodStep(branch.children[i], caseSensitive, config);
    }
  }

  /** The run returned a word, known or not. */
  predicate Answers<R>(run: Option<(Option<Found<R>>, string)>) { run.Some? && run.value.0.Some? }

  /** One valid octet and SP, or SP alone, after a path of the trie make the emitted code return a
      word, however long the path is. */
  lemma NodeAnswers<R>(node: ParseBranch<R>, path: string, v: char, caseSensitive: bool, wide: Config, room: int,
                       config: Config)
    requires Sound(node, caseSensitive, wide, room) && !wide.valid(SP) && v != SP
    ensures Answers(Finish(Walk(node, path, config, [SP]), config))
    ensures config.end == SP && config.valid(v) ==> Answers(Finish(Walk(node, path, config, [v, SP]), config))
  {
    NoChildForSpace(node, caseSensitive, wide, room);
    var i := ChildFor(node.children, v);
    assert [v, SP][1..] == [SP];
    if i < |node.children| {
      var r := room - StepWidth(node.children[i]);
      assert Sound(node.children[i], caseSensitive, wide, r);
      NoChildForSpace(node.children[i], caseSensitive, wide, r);
    }
  }

  /** The emitted code enters the trie at the root as it would below a prefix. */
  lemma PathRun<R>(root: ParseBranch<R>, config: Config, key: string, more: string)
    requires key != "" && Lookup(root, key).Some?
    ensures Run(Compile(root.children), config, key + more) ==
              Finish(Walk(Descend(root, key), "" + key, config, more), config)
  {
    DescendRun(root, "", key, config, more);
    RootStep(root.children, config, key + more);
  }

  lemma WideRoot<R>(options: seq<(string, R)>, caseSensitive: bool, config: Config, key: string) returns (wide: Config)
    requires forall i :: 0 <= i < |options| ==> UsableLetters(options[i].0, caseSensitive, config)
    ensures wide == config.(maxLen := wide.maxLen) && Length(key) < wide.maxLen
    ensures Sound(Build(options, caseSensitive), caseSensitive, wide, wide.maxLen)
    ensures Lookup(Build(options, caseSensitive), key) == Find(options, key, caseSensitive)
  {
    wide := config.(maxLen := LongestKey(options) + Length(key) + 1);
    forall i | 0 <= i < |options| ensures UsableLetters(options[i].0, caseSensitive, wide) {
      assert UsableLetters(options[i].0, caseSensitive, config);
      forall k | 0 <= k < |options[i].0| ensures UsableLetter(options[i].0[k], caseSensitive, wide) {
        assert UsableLetter(options[i].0[k], caseSensitive, config);
      }
    }
    BuildIsFind(options, caseSensitive, wide);
  }

  /** After a key, the code takes SP alone for the end of the word, and one more octet however long
      the key is. */
  lemma KeyAnswers<R>(options: seq<(string, R)>, caseSensitive: bool, config: Config, key: string, v: char)
    requires !config.valid(SP) && config.valid(v)
    requires forall i :: 0 <= i < |options| ==> UsableLetters(options[i].0, caseSensitive, config)
    requires key != "" && Find(options, key, caseSensitive).Some?
    ensures Answers(Run(Compile(Build(options, caseSensitive).children), config, key + [SP]))
    ensures config.end == SP ==> Answers(Run(Compile(Build(options, caseSensitive).children), config, key + [v, SP]))
  {
    var root := Build(options, caseSensitive);
    var wide := WideRoot(options, caseSensitive, config, key);
    DescendSound(root, key, caseSensitive, wide, wide.maxLen);
    NodeAnswers(Descend(root, key), "" + key, v, caseSensitive, wide, wide.maxLen - Length(key), config);
    PathRun(root, config, key, [SP]);
    PathRun(root, config, key, [v, SP]);
  }

  ghost predicate AllValid(config: Config, s: string) { forall i :: 0 <= i < |s| ==> config.valid(s[i]) }

  lemma {:induction false} FittingIsLongest(s: string, limit: nat)
    ensures
      var k := Fitting(s, limit);
      Length(s[..k]) <= limit && (k < |s| ==> Length(s[..k]) + Width(s[k]) > limit)
  {
    var k := Fitting(s, limit);
    if k > 0 {
      FittingIsLongest(s[1..], limit - Width(s[0]));
      assert s[..k][1..] == s[1..][..k - 1];
    }
  }

  lemma {:induction false} FittingAll(s: string, limit: nat)
    requires Length(s) <= limit
    ensures Fitting(s, limit) == |s|
  {
    if s != "" { FittingAll(s[1..], limit - Width(s[0])); }
  }

  /** The reference refuses a word that is over the limit or followed by anything but the end. */
  lemma ReferenceRefuses(config: Config, word: string, next: char)
    requires AllValid(config, word) && !config.valid(next)
    requires Length(word) > config.maxLen || next != config.end
    ensures ReadWord(config, word + [next]).0 == None
  {
    var input := word + [next];
    var n := LeadingValid(config, input);
    assert forall i :: 0 <= i < |word| ==> input[i] == word[i];
    assert input[|word|] == next && n == |word| && input[..n] == word;
    FittingIsLongest(word, config.maxLen);
    assert word[..|word|] == word;
  }

  /** With `end` other than SP and a key, there is an input on which the code ends a word at SP. */
  lemma EndIsIgnored<R>(options: seq<(string, R)>, caseSensitive: bool, config: Config, key: string, v: char)
    requires config.end != SP && !config.valid(SP) && config.valid(v) && AllValid(config, key)
    requires forall i :: 0 <= i < |options| ==> UsableLetters(options[i].0, caseSensitive, config)
    requires key != "" && Find(options, key, caseSensitive).Some?
    ensures Run(Compile(Build(options, caseSensitive).children), config, key + [SP]) !=
              Some(Reference(options, caseSensitive, config, key + [SP]))
  {
    KeyAnswers(options, caseSensitive, config, key, v);
    ReferenceRefuses(config, key, SP);
  }

  /** With a key as long as the limit, or no room for any octet, there is an input on which the
      compiled matcher accepts a word over the limit. */
  lemma LimitIsNeeded<R>(options: seq<(string, R)>, caseSensitive: bool, config: Config, key: string, v: char)
    requires !config.valid(config.end) && !config.valid(SP) && config.valid(v) && AllValid(config, key)
    requires forall i :: 0 <= i < |options| ==> UsableLetters(options[i].0, caseSensitive, config)
    requires if key == "" then NoKeys(options) else config.end == SP && Find(options, key, caseSensitive).Some?
    requires Length(key) >= config.maxLen
    ensures Run(Compile(Build(options, caseSensitive).children), config, key + [v, config.end]) !=
              Some(Reference(options, caseSensitive, config, key + [v, config.end]))
  {
    assert key + [v, config.end] == (key + [v]) + [config.end];
    LengthPush(key, v);
    ReferenceRefuses(config, key + [v], config.end);
    if key == "" {
      NoKeysNoChildren(options, caseSensitive);
      assert "" + [v, config.end] == [v, config.end] && [v, config.end][1..] == [config.end];
      RootStep(Build(options, caseSensitive).children, config, [v, config.end]);
    } else {
      KeyAnswers(options, caseSensitive, config, key, v);
    }
  }

  /** All of `word` but its last octet leaves the text after `s` below the limit. */
  ghost predicate Below(s: string, word: string, config: Config) {
    word != "" ==> Length(s) + Length(word[..|word| - 1]) < config.maxLen
  }

  lemma BelowStep(s: string, word: string, config: Config)
    requires word != "" && Below(s, word, config)
    ensures Below(s + [word[0]], word[1..], config) && Length(s) < config.maxLen
  {
    LengthPush(s, word[0]);
    if |word| > 1 {
      var front := word[..|word| - 1];
      assert front[1..] == word[1..][..|word[1..]| - 1];
    }
  }

  /** The loop tests the length before it adds an octet, and only for equality. */
  lemma {:induction false} LoopAnswers<R>(s: string, word: string, config: Config)
    requires AllValid(config, word) && !config.valid(config.end) && Below(s, word, config)
    ensures RunLoop<R>(s, config, word + [config.end]).0.Some?
    decreases |word|
  {
    if word != "" {
      BelowStep(s, word, config);
      assert (word + [config.end])[1..] == word[1..] + [config.end];
      LoopAnswers<R>(s + [word[0]], word[1..], config);
    }
  }

  lemma {:induction false} WalkAnswers<R>(node: ParseBranch<R>, s: string, word: string, caseSensitive: bool,
                                          config: Config, room: int)
    requires Sound(node, caseSensitive, config, room) && config.end == SP
    requires AllValid(config, word) && !config.valid(SP) && Below(s, word, config)
    ensures Answers(Finish(Walk(node, s, config, word + [SP]), config))
    decreases |word|
  {
    if word == "" {
      NoChildForSpace(node, caseSensitive, config, room);
    } else {
      BelowStep(s, word, config);
      assert (word + [SP])[1..] == word[1..] + [SP];
      var i := ChildFor(node.children, word[0]);
      if i < |node.children| {
        var r := room - StepWidth(node.children[i]);
        WalkAnswers(node.children[i], s + [word[0]], word[1..], caseSensitive, config, r);
      } else {
        LoopAnswers<R>(s + [word[0]], word[1..], config);
      }
    }
  }

  /** The octets that `valid` is asked about are octets. */
  ghost predicate OctetConfig(config: Config) { forall c :: config.valid(c) ==> c as int < 256 }

  /** Unless the limit cannot be stepped over, a word one short of it is followed by an octet of
      length 2. */
  lemma SteppingWord(config: Config) returns (word: string, h: char)
    requires OctetConfig(config) && !StepFree(config) && config.maxLen >= 1
    ensures AllValid(config, word) && config.valid(h) && Width(h) == 2 && Length(word) == config.maxLen - 1
  {
    h :| config.valid(h) && !IsAscii(h);
    OctetWidth(h);
    if config.maxLen % 2 == 1 {
      word := Repeat(h, (config.maxLen - 1) / 2);
      RepeatLength(h, (config.maxLen - 1) / 2);
    } else {
      var a :| config.valid(a) && !(128 <= a as int < 256);
      OctetWidth(a);
      word := Repeat(a, config.maxLen - 1);
      RepeatLength(a, config.maxLen - 1);
    }
  }

  /** Where octets of length 2 can step over the limit, there is an input on which the code accepts
      a word over it. */
  lemma LimitIsSteppedOver<R>(options: seq<(string, R)>, caseSensitive: bool, config: Config) returns (input: string)
    requires OctetConfig(config) && !StepFree(config) && !config.valid(config.end) && !config.valid(SP)
    requires UsableKeys(options, caseSensitive, config) && EndWorks(options, config)
    ensures Run(Compile(Build(options, caseSensitive).children), config, input) !=
              Some(Reference(options, caseSensitive, config, input))
  {
    var word, h := SteppingWord(config);
    var long := word + [h];
    input := long + [config.end];
    LengthPush(word, h);
    assert long[..|long| - 1] == word && AllValid(config, long);
    ReferenceRefuses(config, long, config.end);
    var root := Build(options, caseSensitive);
    RootStep(root.children, config, input);
    if config.end == SP {
      BuildIsFind(options, caseSensitive, config);
      WalkAnswers(root, "", long, caseSensitive, config, config.maxLen);
    } else {
      NoKeysNoChildren(options, caseSensitive);
      BelowStep("", long, config);
      assert "" + [long[0]] == [long[0]] && input[1..] == long[1..] + [config.end];
      LoopAnswers<R>([long[0]], long[1..], config);
    }
  }

  function LongestKey<R>(options: seq<(string, R)>): (n: nat)
    ensures forall i :: 0 <= i < |options| ==> Length(options[i].0) <= n
  {
    if options == [] then 0
    else
      var n := LongestKey(options[1..]);
      if Length(options[0].0) > n then Length(options[0].0) else n
  }

  ghost predicate MatcherCorrect<R>(options: seq<(string, R)>, caseSensitive: bool, config: Config) {
    forall input :: Run(Compile(Build(options, caseSensitive).children), config, input) ==
                    Some(Reference(options, caseSensitive, config, input))
  }

  /** The limit leaves room for an octet after every key. */
  ghost predicate Room<R>(options: seq<(string, R)>, config: Config) {
    config.maxLen >= 1 && forall i :: 0 <= i < |options| ==> Length(options[i].0) < config.maxLen
  }

  /** The compiled matcher is the reference on every input exactly when the limit leaves room for
      an octet after every key and cannot be stepped over, and `end` is SP unless there is no key to
      match. */
  lemma MatcherCorrectIffRoom<R>(options: seq<(string, R)>, caseSensitive: bool, config: Config, v: char)
    requires OctetConfig(config) && !config.valid(config.end) && !config.valid(SP) && config.valid(v)
    requires forall i :: 0 <= i < |options| ==> UsableLetters(options[i].0, caseSensitive, config)
    ensures MatcherCorrect(options, caseSensitive, config) <==>
              Room(options, config) && StepFree(config) && EndWorks(options, config)
  {
    if !EndWorks(options, config) {
      var i :| 0 <= i < |options| && options[i].0 != "";
      KeyIsFound(options, caseSensitive, i);
      KeyIsValid(options[i].0, caseSensitive, config);
      EndIsIgnored(options, caseSensitive, config, options[i].0, v);
    } else if !Room(options, config) {
      NoRoom(options, caseSensitive, config, v);
    } else if !StepFree(config) {
      var input := LimitIsSteppedOver(options, caseSensitive, config);
    } else {
      forall input ensures Run(Compile(Build(options, caseSensitive).children), config, input) ==
                             Some(Reference(options, caseSensitive, config, input))
      {
        MatcherRefinesReference(options, caseSensitive, config, input);
      }
    }
  }

  lemma NoRoom<R>(options: seq<(string, R)>, caseSensitive: bool, config: Config, v: char)
    requires !config.valid(config.end) && !config.valid(SP) && config.valid(v)
    requires forall i :: 0 <= i < |options| ==> UsableLetters(options[i].0, caseSensitive, config)
    requires EndWorks(options, config) && !Room(options, config)
    ensures !MatcherCorrect(options, caseSensitive, config)
  {
    if NoKeys(options) {
      LimitIsNeeded(options, caseSensitive, config, "", v);
    } else {
      var i :| 0 <= i < |options| && options[i].0 != "" && Length(options[i].0) >= config.maxLen;
      KeyIsFound(options, caseSensitive, i);
      KeyIsValid(options[i].0, caseSensitive, config);
      LimitIsNeeded(options, caseSensitive, config, options[i].0, v);
    }
  }

  lemma KeyIsValid(key: string, caseSensitive: bool, config: Config)
    requires UsableLetters(key, caseSensitive, config)
    ensures AllValid(config, key)
  {
    forall k | 0 <= k < |key| ensures config.valid(key[k]) {
      assert key[k] in Forms(key[k], caseSensitive) && UsableLetter(key[k], caseSensitive, config);
    }
  }

  lemma {:induction false} KeyIsFound<R>(options: seq<(string, R)>, caseSensitive: bool, i: nat)
    requires i < |options|
    ensures Find(options, options[i].0, caseSensitive).Some?
  {
    if i < |options| - 1 { KeyIsFound(options[..|options| - 1], caseSensitive, i); }
  }

  /** A word that ends at SP although ':' is to end it. */
  lemma EndIsIgnoredAt()
    ensures
      var options := [("A", 0)];
      var config := Config(c => c == 'A', ':', 2);
      && Run(Compile(Build(options, true).children), config, "A ") == Some((Some(Known(0)), ""))
      && Reference(options, true, config, "A ") == (None, "")
  {
    var options := [("A", 0)];
    var config := Config(c => c == 'A', ':', 2);
    ReferenceRefuses(config, "A", SP);
    var leaf := ParseBranch("A", Some(0), []);
    assert Build([], true) == EmptyBranch<int>() && options[..0] == [];
    assert Insert(ParseBranch("A", None, []), "", 0, true) == leaf && "A"[1..] == "";
    assert Build(options, true).children == [leaf];
    RootStep([leaf], config, "A ");
    assert ChildFor([leaf], 'A') == 0 && "A "[1..] == " " && " "[1..] == "";
    assert Walk(leaf, "" + "A", config, " ") == Returned(Some(Known(0)), "");
  }
}
