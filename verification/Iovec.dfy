/** The iovec helpers of src/macro.h: skipping bytes at the front of a scatter list, in place. */
module Iovec {
  import opened CStrings

  /** A stretch of memory: where it begins and how long it is. */
  datatype Iovec = Iovec(base: nat, len: nat)

  const SIZE_MODULUS: nat := 0x1_0000_0000_0000_0000

  function Min(a: nat, b: nat): nat {
    if a < b then a else b
  }

  function Total(v: seq<Iovec>): nat {
    if v == [] then 0 else v[0].len + Total(v[1..])
  }

  /** The bytes a list denotes in `memory`. */
  function Bytes(memory: seq<Byte>, v: seq<Iovec>): seq<Byte>
    requires Within(v, |memory|)
  {
    if v == [] then [] else Piece(memory, v[0]) + Bytes(memory, v[1..])
  }

  function Piece(memory: seq<Byte>, x: Iovec): (b: seq<Byte>)
    requires x.base + x.len <= |memory|
    ensures |b| == x.len
  {
    memory[x.base..x.base + x.len]
  }

  ghost predicate Within(v: seq<Iovec>, size: nat) {
    forall i :: 0 <= i < |v| ==> v[i].base + v[i].len <= size
  }

  /** The list with its first `k` bytes skipped, as far as it has them. */
  function Advanced(v: seq<Iovec>, k: nat): seq<Iovec> {
    if v == [] then []
    else
      var sub := Min(v[0].len, k);
      [Iovec(v[0].base + sub, v[0].len - sub)] + Advanced(v[1..], k - sub)
  }

  /** The total is the number of bytes that the list denotes. */
  lemma {:induction false} TotalIsBytes(memory: seq<Byte>, v: seq<Iovec>)
    requires Within(v, |memory|)
    ensures Total(v) == |Bytes(memory, v)|
  {
    if v != [] {
      TotalIsBytes(memory, v[1..]);
    }
  }

  method TotalSize(v: array<Iovec>, n: nat) returns (r: nat)
    requires n <= v.Length
    ensures r == Total(v[..n]) % 0x1_0000_0000_0000_0000
  {
    r := 0;
    for j := 0 to n
      invariant r == Total(v[..j]) % SIZE_MODULUS
    {
      TotalConcat(v[..j], [v[j]]);
      assert v[..j + 1] == v[..j] + [v[j]];
      SumWraps(Total(v[..j]), v[j].len);
      r := (r + v[j].len) % SIZE_MODULUS;
    }
  }

  lemma SumWraps(a: nat, b: nat)
    ensures (a % SIZE_MODULUS + b) % SIZE_MODULUS == (a + b) % SIZE_MODULUS
  {
  }

  /** What remains of `k` is what the list was too short for. */
  method Increment(v: array<Iovec>, n: nat, k: nat) returns (rest: nat)
    requires n <= v.Length
    modifies v
    ensures v[..n] == Advanced(old(v[..n]), k)
    ensures v[n..] == old(v[n..])
    ensures rest == k - Min(k, Total(old(v[..n])))
  {
    rest := k;
    var j := 0;
    ghost var front, todo, tail := [], v[..n], v[n..];
    ghost var goal, left := Advanced(v[..n], k), k - Min(k, Total(v[..n]));
    while j < n && rest > 0
      invariant j <= n && |front| == j && |todo| == n - j
      invariant v[..] == front + todo + tail
      invariant front + Advanced(todo, rest) == goal
      invariant rest - Min(rest, Total(todo)) == left
    {
      AdvanceOne(front, todo, rest);
      assert v[j] == v[..][j] == todo[0];
      var sub := Min(v[j].len, rest);
      v[j] := Iovec(v[j].base + sub, v[j].len - sub);
      rest := rest - sub;
      UpdateFirst(front, todo, tail, v[j]);
      front, todo := front + [v[j]], todo[1..];
      j := j + 1;
    }
    AdvanceRest(todo, rest);
    assert v[..n] == v[..][..n] == front + todo;
    assert v[n..] == v[..][n..] == tail;
  }

  /** One turn of the loop: the first piece gives what it can, the others give the rest. */
  lemma AdvanceOne(done: seq<Iovec>, left: seq<Iovec>, k: nat)
    requires left != []
    ensures var sub := Min(left[0].len, k);
            && done + Advanced(left, k)
                 == done + [Iovec(left[0].base + sub, left[0].len - sub)] + Advanced(left[1..], k - sub)
            && k - Min(k, Total(left)) == (k - sub) - Min(k - sub, Total(left[1..]))
  {
  }

  lemma UpdateFirst(a: seq<Iovec>, b: seq<Iovec>, c: seq<Iovec>, x: Iovec)
    requires b != []
    ensures (a + b + c)[|a| := x] == a + [x] + b[1..] + c
  {
  }

  lemma AdvanceRest(v: seq<Iovec>, k: nat)
    requires v == [] || k == 0
    ensures Advanced(v, k) == v && Min(k, Total(v)) == 0
  {
  }

  lemma {:induction false} AdvanceNone(v: seq<Iovec>)
    ensures Advanced(v, 0) == v
  {
    if v != [] {
      AdvanceNone(v[1..]);
    }
  }

  lemma {:induction false} TotalConcat(a: seq<Iovec>, b: seq<Iovec>)
    ensures Total(a + b) == Total(a) + Total(b)
  {
    if a == [] {
      assert a + b == b;
    } else {
      assert (a + b)[1..] == a[1..] + b;
      TotalConcat(a[1..], b);
    }
  }

  lemma {:induction false} AdvanceTotal(v: seq<Iovec>, k: nat)
    ensures Total(Advanced(v, k)) == Total(v) - Min(k, Total(v))
  {
    if v != [] {
      var sub := Min(v[0].len, k);
      AdvanceTotal(v[1..], k - sub);
      assert Advanced(v, k)[1..] == Advanced(v[1..], k - sub);
    }
  }

  lemma {:induction false} AdvanceStaysWithin(v: seq<Iovec>, k: nat, size: nat)
    requires Within(v, size)
    ensures Within(Advanced(v, k), size)
  {
    if v != [] {
      AdvanceStaysWithin(v[1..], k - Min(v[0].len, k), size);
    }
  }

  lemma {:induction false} BytesTotal(memory: seq<Byte>, v: seq<Iovec>)
    requires Within(v, |memory|)
    ensures |Bytes(memory, v)| == Total(v)
  {
    if v != [] {
      BytesTotal(memory, v[1..]);
    }
  }

  lemma DropInside(whole: seq<Byte>, a: seq<Byte>, b: seq<Byte>, k: nat)
    requires k <= |a| && whole == a + b
    ensures whole[k..] == a[k..] + b
  {
  }

  lemma DropPast(a: seq<Byte>, b: seq<Byte>, k: nat)
    requires |a| <= k <= |a| + |b|
    ensures (a + b)[k..] == b[k - |a|..]
  {
  }

  lemma {:induction false} DropsBytes(memory: seq<Byte>, v: seq<Iovec>, k: nat)
    requires Within(v, |memory|) && Within(Advanced(v, k), |memory|)
    requires Min(k, Total(v)) <= |Bytes(memory, v)|
    ensures Bytes(memory, Advanced(v, k)) == Bytes(memory, v)[Min(k, Total(v))..]
  {
    if v != [] {
      if k < v[0].len {
        DropsInsideFirst(memory, v, k);
      } else {
        BytesTotal(memory, v[1..]);
        AdvanceStaysWithin(v[1..], k - v[0].len, |memory|);
        DropsBytes(memory, v[1..], k - v[0].len);
        DropsPastFirst(memory, v, k);
      }
    }
  }

  lemma AdvancedInsideFirst(v: seq<Iovec>, k: nat)
    requires v != [] && k < v[0].len
    ensures Advanced(v, k) == [Iovec(v[0].base + k, v[0].len - k)] + v[1..]
  {
    AdvanceNone(v[1..]);
  }

  lemma DropsInsideFirst(memory: seq<Byte>, v: seq<Iovec>, k: nat)
    requires v != [] && Within(v, |memory|) && Within(Advanced(v, k), |memory|) && k < v[0].len
    ensures k <= |Bytes(memory, v)| && Bytes(memory, Advanced(v, k)) == Bytes(memory, v)[k..]
  {
    AdvancedInsideFirst(v, k);
    BytesCons(memory, Iovec(v[0].base + k, v[0].len - k), v[1..]);
    PieceDrop(memory, v[0], k);
    DropInside(Bytes(memory, v), Piece(memory, v[0]), Bytes(memory, v[1..]), k);
  }

  lemma DropsPastFirst(memory: seq<Byte>, v: seq<Iovec>, k: nat)
    requires v != [] && Within(v, |memory|) && Within(Advanced(v, k), |memory|) && k >= v[0].len
    requires Within(Advanced(v[1..], k - v[0].len), |memory|)
    requires Min(k - v[0].len, Total(v[1..])) <= |Bytes(memory, v[1..])|
    requires Bytes(memory, Advanced(v[1..], k - v[0].len))
               == Bytes(memory, v[1..])[Min(k - v[0].len, Total(v[1..]))..]
    ensures Min(k, Total(v)) <= |Bytes(memory, v)|
    ensures Bytes(memory, Advanced(v, k)) == Bytes(memory, v)[Min(k, Total(v))..]
  {
    BytesOfAdvanced(memory, v, k);
    PieceDrop(memory, v[0], v[0].len);
    DropPast(Piece(memory, v[0]), Bytes(memory, v[1..]), Min(k, Total(v)));
  }

  /** Bytes are conserved: what is skipped leaves the front of the contents, and every piece
      stays inside the memory it was in. */
  lemma AdvanceDropsBytes(memory: seq<Byte>, v: seq<Iovec>, k: nat)
    requires Within(v, |memory|)
    ensures Within(Advanced(v, k), |memory|)
    ensures |Bytes(memory, v)| == Total(v)
    ensures Bytes(memory, Advanced(v, k)) == Bytes(memory, v)[Min(k, Total(v))..]
  {
    AdvanceStaysWithin(v, k, |memory|);
    BytesTotal(memory, v);
    DropsBytes(memory, v, k);
  }

  lemma PieceDrop(memory: seq<Byte>, x: Iovec, sub: nat)
    requires x.base + x.len <= |memory| && sub <= x.len
    ensures Piece(memory, Iovec(x.base + sub, x.len - sub)) == Piece(memory, x)[sub..]
  {
  }

  lemma BytesCons(memory: seq<Byte>, x: Iovec, v: seq<Iovec>)
    requires x.base + x.len <= |memory| && Within(v, |memory|)
    ensures Within([x] + v, |memory|) && Bytes(memory, [x] + v) == Piece(memory, x) + Bytes(memory, v)
  {
    assert ([x] + v)[1..] == v;
  }

  lemma BytesOfAdvanced(memory: seq<Byte>, v: seq<Iovec>, k: nat)
    requires v != [] && Within(v, |memory|) && Within(Advanced(v, k), |memory|)
    ensures var sub := Min(v[0].len, k);
            && Within(Advanced(v[1..], k - sub), |memory|)
            && Bytes(memory, Advanced(v, k))
                 == Piece(memory, Iovec(v[0].base + sub, v[0].len - sub)) + Bytes(memory, Advanced(v[1..], k - sub))
  {
    AdvanceStaysWithin(v[1..], k - Min(v[0].len, k), |memory|);
    assert Advanced(v, k)[1..] == Advanced(v[1..], k - Min(v[0].len, k));
  }

  lemma {:induction false} AdvancedAgain(v: seq<Iovec>, a: nat, b: nat)
    ensures Advanced(Advanced(v, a), b) == Advanced(v, a + b)
  {
    if v != [] {
      var sub := Min(v[0].len, a);
      var next := Min(v[0].len - sub, b);
      assert sub + next == Min(v[0].len, a + b);
      assert Advanced(v, a)[1..] == Advanced(v[1..], a - sub);
      AdvancedAgain(v[1..], a - sub, b - next);
    }
  }

  /** Skipping twice is skipping the sum: the same list and the same remainder. */
  lemma AdvanceTwice(v: seq<Iovec>, a: nat, b: nat)
    ensures Advanced(Advanced(v, a), b) == Advanced(v, a + b)
    ensures (a - Min(a, Total(v))) + (b - Min(b, Total(Advanced(v, a)))) == (a + b) - Min(a + b, Total(v))
  {
    AdvancedAgain(v, a, b);
    AdvanceTotal(v, a);
  }
}
