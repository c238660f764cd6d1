/** Messages one after the other on a wire: printed in order, taken off in order. */
module Messages {
  import opened Octets

  function Joined<R>(text: R -> string, rs: seq<R>): string {
    if rs == [] then "" else text(rs[0]) + Joined(text, rs[1..])
  }

  function Mapped<R, T>(f: R -> T, rs: seq<R>): (ts: seq<T>)
    ensures |ts| == |rs| && forall i :: 0 <= i < |rs| ==> ts[i] == f(rs[i])
  {
    seq(|rs|, i requires 0 <= i < |rs| => f(rs[i]))
  }

  /** From the octets to come: a message and what follows it, or nothing. */
  type Decoder<T> = string -> Option<(T, string)>

  /** All messages off the wire, in order; `None` if anything on it is no message. */
  function DecodeEach<T>(decode: Decoder<T>, wire: string): Option<seq<T>>
    decreases |wire|
  {
    if wire == "" then Some([])
    else
      match decode(wire)
      case None => None
      case Some((first, after)) => if |after| >= |wire| then None else FirstThen(first, DecodeEach(decode, after))
  }

  function FirstThen<T>(first: T, more: Option<seq<T>>): Option<seq<T>> {
    match more case None => None case Some(ts) => Some([first] + ts)
  }

  lemma {:induction false} JoinedAppend<R>(text: R -> string, rs: seq<R>, r: R)
    ensures Joined(text, rs + [r]) == Joined(text, rs) + text(r)
  {
    if rs == [] {
      assert rs + [r] == [r] && [r][1..] == [];
      assert text(r) + "" == "" + text(r);
    } else {
      assert (rs + [r])[1..] == rs[1..] + [r];
      JoinedAppend(text, rs[1..], r);
      Associative(text(rs[0]), Joined(text, rs[1..]), text(r));
    }
  }

  /** A message that can be taken off the wire whatever follows it. */
  ghost predicate Decodes<T>(decode: Decoder<T>, text: string, value: T) {
    text != "" && forall after :: decode(text + after) == Some((value, after))
  }

  /** Messages that can be taken off the wire one by one are taken off it in order, and nothing else. */
  lemma {:induction false} EachDecodes<R, T>(decode: Decoder<T>, text: R -> string, value: R -> T, rs: seq<R>)
    requires forall i :: 0 <= i < |rs| ==> Decodes(decode, text(rs[i]), value(rs[i]))
    ensures DecodeEach(decode, Joined(text, rs)) == Some(Mapped(value, rs))
  {
    if rs != [] {
      assert Decodes(decode, text(rs[0]), value(rs[0]));
      EachDecodes(decode, text, value, rs[1..]);
      assert Mapped(value, rs) == [value(rs[0])] + Mapped(value, rs[1..]);
    }
  }

  /** What follows the first message decides whether there is more than that message. */
  lemma OnlyMessage<T>(decode: Decoder<T>, wire: string, first: T, after: string)
    requires decode(wire) == Some((first, after)) && |after| < |wire|
    ensures DecodeEach(decode, wire) == Some([first]) <==> after == ""
  {
    assert DecodeEach(decode, wire) == FirstThen(first, DecodeEach(decode, after));
    assert [first] + [] == [first];
  }

  // ---------------------------------------------------------------- turns

  /** A sequence of results, one for each turn from a given one on. */
  function EachTurn<S, T>(f: (nat, S) -> T, xs: seq<S>, turn: nat): (ts: seq<T>)
    ensures |ts| == |xs| && forall i :: 0 <= i < |xs| ==> ts[i] == f(turn + i, xs[i])
  {
    seq(|xs|, i requires 0 <= i < |xs| => f(turn + i, xs[i]))
  }

  lemma EachTurnConcat<S, T>(f: (nat, S) -> T, xs: seq<S>, ys: seq<S>)
    ensures EachTurn(f, xs + ys, 0) == EachTurn(f, xs, 0) + EachTurn(f, ys, |xs|)
  {
    var all := EachTurn(f, xs + ys, 0);
    forall i | 0 <= i < |all| ensures all[i] == (EachTurn(f, xs, 0) + EachTurn(f, ys, |xs|))[i] {
      if i >= |xs| { assert (xs + ys)[i] == ys[i - |xs|]; }
    }
  }

  lemma OneTurn<S, T>(f: (nat, S) -> T, x: S, turn: nat)
    ensures EachTurn(f, [x], turn) == [f(turn, x)]
  {
    assert EachTurn(f, [x], turn)[0] == f(turn + 0, x);
  }

  lemma FromTheStart<S, T>(f: (nat, S) -> T, xs: seq<S>, ys: seq<T>)
    requires |ys| == |xs| && forall i :: 0 <= i < |xs| ==> ys[i] == f(i, xs[i])
    ensures EachTurn(f, xs, 0) == ys
  {
    forall i | 0 <= i < |xs| ensures EachTurn(f, xs, 0)[i] == ys[i] { assert EachTurn(f, xs, 0)[i] == f(0 + i, xs[i]); }
  }
}
