/** Record shapes shared by the server managers and the client code. */
module Common {

  datatype Option<+T> = None | Some(value: T)

  /** User ids are opaque strings chosen by the caller. */
  type UserId = string

  /** A world coordinate pair; the source's `number` coordinates are modelled as integers. */
  datatype Pos = Pos(x: int, y: int)

  /** A transport handle: an identity (object identity in the source) and whether it is OPEN. */
  datatype Socket = Socket(id: nat, open: bool)

  /** A frame written with `socket.send`: the socket it was written to and its payload. */
  datatype Sent<M> = Sent(to: nat, msg: M)

  /** No element occurs twice (the iteration order of a JS Set or Map key list). */
  predicate Distinct<T(==)>(s: seq<T>) {
    forall i, j :: 0 <= i < j < |s| ==> s[i] != s[j]
  }

  /** The elements of `s` in order, without `x`: what `Set.delete(x)` leaves behind. */
  function Without(s: seq<string>, x: string): (r: seq<string>)
    ensures forall y :: y in r <==> y in s && y != x
    ensures Distinct(s) ==> Distinct(r)
    ensures x in s && Distinct(s) ==> |r| == |s| - 1
    ensures x !in s ==> r == s
  {
    if s == [] then []
    else
      DistinctTail(s);
      if s[0] == x then Without(s[1..], x)
      else [s[0]] + Without(s[1..], x)
  }

  lemma DistinctTail<T>(s: seq<T>)
    requires |s| > 0
    ensures Distinct(s) ==> Distinct(s[1..]) && s[0] !in s[1..]
  {
    if Distinct(s) {
      forall i, j | 0 <= i < j < |s[1..]| ensures s[1..][i] != s[1..][j] {
        assert s[1..][i] == s[i + 1] && s[1..][j] == s[j + 1];
      }
    }
  }

  lemma DistinctInit<T>(s: seq<T>)
    requires |s| > 0 && Distinct(s)
    ensures Distinct(s[..|s| - 1]) && s[|s| - 1] !in s[..|s| - 1]
  {
    var init := s[..|s| - 1];
    forall i, j | 0 <= i < j < |init| ensures init[i] != init[j] {
      assert init[i] == s[i] && init[j] == s[j];
    }
    forall k | 0 <= k < |init| ensures init[k] != s[|s| - 1] {
      assert init[k] == s[k];
    }
  }

  /** The elements of a sequence, as a set. */
  function Members(s: seq<string>): (r: set<string>)
    ensures forall u :: u in r <==> u in s
  {
    set k | 0 <= k < |s| :: s[k]
  }

  /** `Set.add(x)`: appended at the end unless already present. */
  function AddLast(s: seq<string>, x: string): (r: seq<string>)
    ensures forall y :: y in r <==> y in s || y == x
    ensures Distinct(s) ==> Distinct(r)
  {
    if x in s then s else s + [x]
  }

  lemma MembersConcat(a: seq<string>, b: seq<string>)
    ensures Members(a + b) == Members(a) + Members(b)
  {
  }

  lemma DistinctConcat(a: seq<string>, b: seq<string>)
    requires Distinct(a) && Distinct(b) && forall u :: u in b ==> u !in a
    ensures Distinct(a + b)
  {
    forall i, j | 0 <= i < j < |a + b| ensures (a + b)[i] != (a + b)[j] {
      if j >= |a| && i < |a| { assert (a + b)[j] in b; }
    }
  }

  lemma MembersAppend(s: seq<string>, x: string)
    ensures Members(s + [x]) == Members(s) + {x}
  {
  }

  lemma DistinctAppend(s: seq<string>, x: string)
    requires Distinct(s) && x !in s
    ensures Distinct(s + [x])
  {
  }

  lemma HeadIsMember(s: seq<string>)
    requires s != []
    ensures s[0] in s
  {
  }

  /** A sequence without members is empty. */
  lemma NoMembersEmpty(s: seq<string>)
    requires forall x :: x !in s
    ensures s == []
  {
    if s != [] { HeadIsMember(s); }
  }
}
