/** Result and option types shared by every component model. */
module Prelude {

  datatype Option<+T> = None | Some(value: T)

  /** A TypeScript call that either returns or throws with a refusal code. */
  datatype Result<+T, +E> = Ok(value: T) | Err(error: E)
}

/** Small facts about texts that several components share. */
module Texts {
  predicate IsHex(c: char) { '0' <= c <= '9' || 'a' <= c <= 'f' }

  /** `sha256:` and 64 lower-case hexadecimal digits. */
  predicate IsContentAddress(s: string) {
    |s| == 71 && s[..7] == "sha256:" && forall i :: 7 <= i < 71 ==> IsHex(s[i])
  }

  lemma Cancel(a: string, x: string, y: string)
    requires a + x == a + y
    ensures x == y
  {
    assert (a + x)[|a|..] == x && (a + y)[|a|..] == y;
  }

  /** Two texts of equal length in front of equal wholes are equal. */
  lemma SplitAt(a: string, b: string, x: string, y: string)
    requires |a| == |b| && a + x == b + y
    ensures a == b && x == y
  {
    assert a == (a + x)[..|a|] && b == (b + y)[..|b|];
    Cancel(a, x, y);
  }

  lemma NotLonger(a: string, b: string, c: char, x: string, y: string)
    requires c !in b && a + ([c] + x) == b + ([c] + y)
    ensures |b| <= |a|
  {
    assert forall i :: 0 <= i < |b| ==> (b + ([c] + y))[i] == b[i];
    assert (a + ([c] + x))[|a|] == c;
  }

  /** A text up to the first occurrence of a separator it does not contain. */
  lemma UpTo(a: string, b: string, c: char, x: string, y: string)
    requires c !in a && c !in b && a + ([c] + x) == b + ([c] + y)
    ensures a == b && x == y
  {
    NotLonger(a, b, c, x, y);
    NotLonger(b, a, c, y, x);
    SplitAt(a, b, [c] + x, [c] + y);
    Cancel([c], x, y);
  }
}

/** Lists without repetitions. */
module Lists {
  predicate Distinct<T(==)>(s: seq<T>) {
    forall i, j :: 0 <= i < j < |s| ==> s[i] != s[j]
  }

  lemma TwiceInMultiset<T>(s: seq<T>, i: nat, j: nat)
    requires i < j < |s| && s[i] == s[j]
    ensures multiset(s)[s[i]] >= 2
  {
    assert s == s[..i] + [s[i]] + s[i + 1..j] + [s[j]] + s[j + 1..];
  }

  lemma {:induction false} OnceInMultiset<T>(s: seq<T>, x: T)
    requires Distinct(s)
    ensures multiset(s)[x] <= 1
    decreases |s|
  {
    if s != [] {
      var init, last := s[..|s| - 1], s[|s| - 1];
      assert s == init + [last];
      OnceInMultiset(init, x);
      assert last !in init;
      assert last !in multiset(init);
    }
  }

  /** Rearranging a list without repetitions introduces none. */
  lemma PermutationOfDistinct<T(!new)>(a: seq<T>, b: seq<T>)
    requires Distinct(a) && multiset(a) == multiset(b)
    ensures Distinct(b) && forall x :: x in b <==> x in a
  {
    forall x ensures x in b <==> x in a {
      assert x in multiset(b) <==> x in multiset(a);
    }
    forall i, j | 0 <= i < j < |b| ensures b[i] != b[j] {
      OnceInMultiset(a, b[i]);
      if b[i] == b[j] { TwiceInMultiset(b, i, j); }
    }
  }
}
