/**
  The `HdfsGateway` option. `HdfsFactory` and `HdfsNSFactory` hold the same loop over a field of their
  own; a `GatewayList` is that field with that loop.
*/
module Gateways {
  import opened Util

  function CommaOrEnd(s: string): (i: nat)
    ensures i <= |s| && ',' !in s[..i] && (i < |s| ==> s[i] == ',')
  {
    if s == "" || s[0] == ',' then 0
    else
      var i := CommaOrEnd(s[1..]);
      assert s[..i + 1] == [s[0]] + s[1..][..i];
      i + 1
  }

  /** What is left for `getline` after it has delivered the first token. */
  function AfterToken(s: string): string {
    var i := CommaOrEnd(s);
    if i < |s| then s[i + 1..] else ""
  }

  /** The tokens `getline(..., ',')` delivers; a trailing comma does not add an empty one. */
  function Tokens(value: string): seq<string>
    decreases |value|
  {
    if value == "" then [] else [value[..CommaOrEnd(value)]] + Tokens(AfterToken(value))
  }

  /** A string of comma-free pieces, each with a comma behind it. */
  function Terminated(pieces: seq<string>): string {
    if pieces == [] then "" else pieces[0] + "," + Terminated(pieces[1..])
  }

  lemma FirstToken(piece: string, rest: string)
    requires ',' !in piece
    ensures Tokens(piece + "," + rest) == [piece] + Tokens(rest)
  {
    var value := piece + "," + rest;
    var i := CommaOrEnd(value);
    assert value[|piece|] == ',';
    assert forall k :: 0 <= k < |piece| ==> value[k] == piece[k];
    assert forall k :: 0 <= k < i ==> value[..i][k] == value[k] != ',';
    assert value[..i] == piece && value[i + 1..] == rest;
  }

  lemma LastToken(last: string)
    requires ',' !in last
    ensures Tokens(last) == if last == "" then [] else [last]
  {
    if last != "" {
      assert CommaOrEnd(last) == |last|;
      assert last[..|last|] == last;
      assert AfterToken(last) == "" && Tokens("") == [];
    }
  }

  /** The tokens are all that lies between commas, empty ones included, but nothing comes after a last comma. */
  lemma {:induction false} TokensLieBetweenCommas(pieces: seq<string>, last: string)
    requires ',' !in last && forall i :: 0 <= i < |pieces| ==> ',' !in pieces[i]
    ensures Tokens(Terminated(pieces) + last) == pieces + if last == "" then [] else [last]
  {
    if pieces == [] {
      LastToken(last);
      assert Terminated(pieces) + last == last;
    } else {
      var first, rest, tail := pieces[0], pieces[1..], if last == "" then [] else [last];
      calc {
        Tokens(Terminated(pieces) + last);
        { Regroup(first + ",", Terminated(rest), last); }
        Tokens(first + "," + (Terminated(rest) + last));
        { FirstToken(first, Terminated(rest) + last); }
        [first] + Tokens(Terminated(rest) + last);
        { TokensLieBetweenCommas(rest, last); }
        [first] + (rest + tail);
        { Regroup([first], rest, tail); }
        pieces + tail;
      }
    }
  }

  lemma Regroup<T>(a: seq<T>, b: seq<T>, c: seq<T>)
    ensures a + b + c == a + (b + c)
  {
  }

  /** Tokens `trim` can cope with, twice in a row. */
  ghost predicate Sensible(tokens: seq<string>) {
    forall t :: t in tokens ==> !AllBlank(t)
  }

  // ----- Adding without duplicates -----

  /** The list after more items: each is added unless it is there. */
  function Merged<T(==)>(list: seq<T>, items: seq<T>): seq<T> {
    if items == [] then list else
      var before := Merged(list, items[..|items| - 1]);
      if items[|items| - 1] in before then before else before + [items[|items| - 1]]
  }

  lemma {:induction false} MergedInTwo<T(!new)>(list: seq<T>, first: seq<T>, second: seq<T>)
    ensures Merged(list, first + second) == Merged(Merged(list, first), second)
  {
    if second == [] {
      assert first + second == first;
    } else {
      assert (first + second)[..|first + second| - 1] == first + second[..|second| - 1];
      MergedInTwo(list, first, second[..|second| - 1]);
    }
  }

  /** `x` is at `i` and not before. */
  ghost predicate FirstAt<T(!new)>(items: seq<T>, x: T, i: nat) {
    i < |items| && items[i] == x && x !in items[..i]
  }

  /** No duplicates, exactly the items, in order of first appearance. */
  ghost predicate FirstAppearances<T(!new)>(list: seq<T>, items: seq<T>) {
    && (forall a, b :: 0 <= a < b < |list| ==> list[a] != list[b])
    && (forall x :: x in list <==> x in items)
    && (forall a, b, i: nat, j: nat ::
          0 <= a < b < |list| && FirstAt(items, list[a], i) && FirstAt(items, list[b], j) ==> i < j)
  }

  lemma {:induction false} MergedKeepsFirstAppearances<T(!new)>(items: seq<T>)
    ensures FirstAppearances(Merged([], items), items)
  {
    if items != [] {
      var front, last := items[..|items| - 1], items[|items| - 1];
      var before, list := Merged([], front), Merged([], items);
      MergedKeepsFirstAppearances(front);
      assert items == front + [last];
      forall a, b, i: nat, j: nat | 0 <= a < b < |list| && FirstAt(items, list[a], i) && FirstAt(items, list[b], j)
        ensures i < j
      {
        assert list[a] in before && list[a] in front;
        FirstIsInFront(front, last, list[a], i);
        if b < |before| {
          assert list[b] in before && list[b] in front;
          FirstIsInFront(front, last, list[b], j);
        }
      }
    }
  }

  lemma FirstIsInFront<T(!new)>(front: seq<T>, last: T, x: T, i: nat)
    requires x in front && FirstAt(front + [last], x, i)
    ensures FirstAt(front, x, i)
  {
    var k :| 0 <= k < |front| && front[k] == x;
    assert (front + [last])[k] == x;
    forall m | 0 <= m < i ensures (front + [last])[m] != x {
      assert (front + [last])[..i][m] == (front + [last])[m];
    }
    assert (front + [last])[..i] == front[..i];
  }

  // ----- The option -----

  function TrimAll(tokens: seq<string>): seq<string> {
    seq(|tokens|, i requires 0 <= i < |tokens| => Trimmed(tokens[i]))
  }

  lemma TrimAllInTwo(first: seq<string>, second: seq<string>)
    ensures TrimAll(first + second) == TrimAll(first) + TrimAll(second)
  {
  }

  /** All the tokens of a sequence of `configure` calls. */
  function AllTokens(values: seq<string>): seq<string> {
    if values == [] then [] else AllTokens(values[..|values| - 1]) + Tokens(values[|values| - 1])
  }

  /** The list a factory holds after these `configure` calls. */
  function Configured(values: seq<string>): seq<string> {
    if values == [] then [] else
      Merged(Configured(values[..|values| - 1]), TrimAll(Tokens(values[|values| - 1])))
  }

  lemma {:induction false} ConfiguredFromAllTokens(values: seq<string>)
    ensures Configured(values) == Merged([], TrimAll(AllTokens(values)))
  {
    if values != [] {
      var front, last := AllTokens(values[..|values| - 1]), Tokens(values[|values| - 1]);
      ConfiguredFromAllTokens(values[..|values| - 1]);
      TrimAllInTwo(front, last);
      MergedInTwo([], TrimAll(front), TrimAll(last));
    }
  }

  /**
    After any `configure` calls with sensible tokens a factory's list has no duplicates, holds exactly the
    trimmed tokens of all calls in order of first appearance, and every entry is trimmed and non-empty.
    Both factories run this loop, so the same calls give them the same list.
  */
  lemma GatewayListIsExact(values: seq<string>)
    requires Sensible(AllTokens(values))
    ensures FirstAppearances(Configured(values), TrimAll(AllTokens(values)))
    ensures forall g :: g in Configured(values) ==> g != "" && Trimmed(g) == g
  {
    ConfiguredFromAllTokens(values);
    var tokens := AllTokens(values);
    MergedKeepsFirstAppearances(TrimAll(tokens));
    forall g | g in Configured(values) ensures g != "" && Trimmed(g) == g {
      var i :| 0 <= i < |tokens| && TrimAll(tokens)[i] == g;
      assert tokens[i] in tokens;
      TrimmedIsTheCore(tokens[i]);
    }
  }

  /** One round of the loop: the token, trimmed, joins the list unless it is there. */
  lemma OneMoreToken(list: seq<string>, done: seq<string>, token: string)
    ensures var before, t := Merged(list, TrimAll(done)), Trimmed(token);
            Merged(list, TrimAll(done + [token])) == if t in before then before else before + [t]
  {
    assert TrimAll(done + [token])[..|done|] == TrimAll(done);
  }

  class GatewayList {
    var gateways: seq<string>

    constructor ()
      ensures gateways == Configured([])
    {
      gateways := [];
    }

    /** `configure("HdfsGateway", value)` */
    method Configure(value: string)
      requires Sensible(Tokens(value))
      modifies this
      ensures gateways == Merged(old(gateways), TrimAll(Tokens(value)))
    {
      var gatewayString := value;
      ghost var done: seq<string>, all := [], Tokens(value);
      assert TrimAll(done) == [];
      while gatewayString != ""
        invariant done + Tokens(gatewayString) == all
        invariant gateways == Merged(old(gateways), TrimAll(done))
        decreases |gatewayString|
      {
        var gateway := gatewayString[..CommaOrEnd(gatewayString)];
        NextToken(done, gatewayString, all);
        OneMoreToken(old(gateways), done, gateway);
        done := done + [gateway];
        gatewayString := AfterToken(gatewayString);
        Add(gateway);
      }
      assert done == all;
    }

    /** The body of the loop: the token is trimmed for the search, and once more when it is added. */
    method Add(token: string)
      requires token != "" && Trimmed(token) != "" && Trimmed(Trimmed(token)) == Trimmed(token)
      modifies this
      ensures gateways == if Trimmed(token) in old(gateways) then old(gateways) else old(gateways) + [Trimmed(token)]
    {
      var gateway := Trim(token);
      if gateway !in gateways {
        gateway := Trim(gateway);
        gateways := gateways + [gateway];
      }
    }

    static lemma NextToken(done: seq<string>, rest: string, tokens: seq<string>)
      requires rest != "" && done + Tokens(rest) == tokens && Sensible(tokens)
      ensures var token := rest[..CommaOrEnd(rest)];
              && done + [token] + Tokens(AfterToken(rest)) == tokens
              && token != "" && Trimmed(token) != "" && Trimmed(Trimmed(token)) == Trimmed(token)
    {
      var token := rest[..CommaOrEnd(rest)];
      assert tokens[|done|] == token;
      assert token in tokens;
      TrimmedIsTheCore(token);
    }
  }
}
