/** Subsequences and suffixes of sequences: the order-preserving "was taken from" relations. */
module Subsequences {

  // a is obtained from b by deleting elements, keeping the order of the others.
  ghost predicate IsSubseq<T>(a: seq<T>, b: seq<T>)
    decreases |b|
  {
    if a == [] then true
    else if b == [] then false
    else (a[0] == b[0] && IsSubseq(a[1..], b[1..])) || IsSubseq(a, b[1..])
  }

  ghost predicate IsSuffix<T>(a: seq<T>, b: seq<T>) {
    |a| <= |b| && b[|b| - |a|..] == a
  }

  lemma ConcatAssoc<T>(a: seq<T>, b: seq<T>, c: seq<T>)
    ensures (a + b) + c == a + (b + c)
  {
  }

  // Consing onto the first of two concatenated sequences.
  lemma ConcatTail<T>(a: seq<T>, b: seq<T>)
    requires a != []
    ensures (a + b)[0] == a[0] && (a + b)[1..] == a[1..] + b
  {
  }

  lemma PieceOfRest<T>(s: seq<T>, n: nat, a: nat, b: nat)
    requires a <= b && n + b <= |s|
    ensures s[n..][a..b] == s[n + a..n + b]
  {
  }

  lemma SubseqRefl<T>(a: seq<T>)
    ensures IsSubseq(a, a)
  {
    if a != [] { SubseqRefl(a[1..]); }
  }

  lemma {:induction false} SubseqLength<T>(a: seq<T>, b: seq<T>)
    requires IsSubseq(a, b)
    ensures |a| <= |b|
    decreases |b|
  {
    if a != [] {
      if a[0] == b[0] && IsSubseq(a[1..], b[1..]) { SubseqLength(a[1..], b[1..]); } else { SubseqLength(a, b[1..]); }
    }
  }

  lemma {:induction false} SubseqAppend<T>(a: seq<T>, b: seq<T>, c: seq<T>, d: seq<T>)
    requires IsSubseq(a, b) && IsSubseq(c, d)
    ensures IsSubseq(a + c, b + d)
    decreases |b|
  {
    if b == [] {
      assert a + c == c && b + d == d;
    } else {
      assert (b + d)[1..] == b[1..] + d;
      if a == [] {
        SubseqAppend(a, b[1..], c, d);
        assert a + c == c;
      } else if a[0] == b[0] && IsSubseq(a[1..], b[1..]) {
        SubseqAppend(a[1..], b[1..], c, d);
        assert (a + c)[1..] == a[1..] + c;
      } else {
        SubseqAppend(a, b[1..], c, d);
      }
    }
  }

  lemma {:induction false} SubseqTrans<T>(a: seq<T>, b: seq<T>, c: seq<T>)
    requires IsSubseq(a, b) && IsSubseq(b, c)
    ensures IsSubseq(a, c)
    decreases |c|
  {
    if a != [] {
      if b[0] == c[0] && IsSubseq(b[1..], c[1..]) {
        if a[0] == b[0] && IsSubseq(a[1..], b[1..]) {
          SubseqTrans(a[1..], b[1..], c[1..]);
        } else {
          SubseqTrans(a, b[1..], c[1..]);
        }
      } else {
        SubseqTrans(a, b, c[1..]);
      }
    }
  }

  // A piece of a sequence is one of its subsequences.
  lemma SubseqPiece<T>(s: seq<T>, i: nat, j: nat)
    requires i <= j <= |s|
    ensures IsSubseq(s[i..j], s)
  {
    SubseqRefl(s[i..j]);
    SubseqAppend([], s[..i], s[i..j], s[i..j]);
    SubseqAppend([] + s[i..j], s[..i] + s[i..j], [], s[j..]);
    assert [] + s[i..j] + [] == s[i..j];
    assert s[..i] + s[i..j] + s[j..] == s;
  }

  lemma SubseqElement<T>(x: T, b: seq<T>)
    requires IsSubseq([x], b)
    ensures x in b
    decreases |b|
  {
    if !([x][0] == b[0] && IsSubseq([x][1..], b[1..])) { SubseqElement(x, b[1..]); }
  }

  lemma SuffixOfTail<T>(a: seq<T>, x: T, b: seq<T>)
    requires IsSuffix(a, [x] + b)
    ensures a == [x] + b || IsSuffix(a, b)
  {
    var k := |b| - |a|;
    if k >= 0 {
      assert ([x] + b)[1 + k..] == b[k..];
    } else {
      assert ([x] + b)[0..] == [x] + b;
    }
  }

  lemma SuffixTrans<T>(a: seq<T>, b: seq<T>, c: seq<T>)
    requires IsSuffix(a, b) && IsSuffix(b, c)
    ensures IsSuffix(a, c)
  {
    var k := |b| - |a|;
    PieceOfRest(c, |c| - |b|, k, |b|);
    assert b[k..|b|] == b[k..];
    assert c[|c| - |b| + k..|c| - |b| + |b|] == c[|c| - |a|..];
  }

  function Concat<T>(pieces: seq<seq<T>>): seq<T> {
    if pieces == [] then [] else pieces[0] + Concat(pieces[1..])
  }

  lemma {:induction false} ConcatAppend<T>(a: seq<seq<T>>, b: seq<seq<T>>)
    ensures Concat(a + b) == Concat(a) + Concat(b)
  {
    if a == [] {
      assert a + b == b;
    } else {
      ConcatAppend(a[1..], b);
      ConcatTail(a, b);
      ConcatAssoc(a[0], Concat(a[1..]), Concat(b));
    }
  }

  // Where the i-th piece lies.
  lemma PieceAt<T>(pieces: seq<seq<T>>, i: nat)
    requires i < |pieces|
    ensures Concat(pieces) == Concat(pieces[..i]) + (pieces[i] + Concat(pieces[i + 1..]))
  {
    ConcatAppend(pieces[..i], pieces[i..]);
    assert pieces == pieces[..i] + pieces[i..];
    assert pieces[i..][1..] == pieces[i + 1..];
  }
}
