/** Small value-level helpers shared by the three scripts' models. */
module Common {

  datatype Option<T> = None | Some(value: T)

  function Min(a: int, b: int): (r: int) { if a <= b then a else b }

  /** The elements of an optional value, as a sequence of length 0 or 1. */
  function ToSeq<T>(o: Option<T>): (r: seq<T>)
    ensures o.None? <==> r == []
    ensures o.Some? ==> r == [o.value]
  {
    match o
    case None => []
    case Some(v) => [v]
  }

  /** `n` copies of `x`. */
  function Repeat<T>(x: T, n: nat): (r: seq<T>)
    ensures |r| == n
    ensures forall k :: 0 <= k < n ==> r[k] == x
  {
    seq(n, _ => x)
  }

  /** One more copy at the end. */
  lemma RepeatSnoc<T>(x: T, n: nat)
    ensures Repeat(x, n) + [x] == Repeat(x, n + 1)
  {
  }

  /** Two runs of copies make one run as long as both. */
  lemma RepeatAppend<T>(x: T, a: nat, b: nat)
    ensures Repeat(x, a) + Repeat(x, b) == Repeat(x, a + b)
  {
  }

  /** Concatenation of a sequence of sequences, in order (Python's repeated `extend`). */
  function Flatten<T>(ss: seq<seq<T>>): (r: seq<T>)
  {
    if ss == [] then [] else ss[0] + Flatten(ss[1..])
  }

  lemma {:induction false} FlattenAppend<T>(a: seq<seq<T>>, b: seq<seq<T>>)
    ensures Flatten(a + b) == Flatten(a) + Flatten(b)
  {
    if a == [] {
      assert a + b == b;
    } else {
      assert (a + b)[1..] == a[1..] + b;
      FlattenAppend(a[1..], b);
    }
  }

  /** Flattening one more sequence at the end appends it: the shape of a loop that extends. */
  lemma FlattenSnoc<T>(a: seq<seq<T>>, x: seq<T>)
    ensures Flatten(a + [x]) == Flatten(a) + x
  {
    FlattenAppend(a, [x]);
    assert Flatten([x]) == x + Flatten([x][1..]);
    assert [x][1..] == [];
  }

  /** Flattening one more element of a prefix: the step of a loop over `ss`. */
  lemma FlattenPrefixStep<T>(ss: seq<seq<T>>, b: nat)
    requires b < |ss|
    ensures Flatten(ss[..b + 1]) == Flatten(ss[..b]) + ss[b]
  {
    assert ss[..b + 1] == ss[..b] + [ss[b]];
    FlattenSnoc(ss[..b], ss[b]);
  }

  /** A prefix followed by the next slice is the longer prefix. */
  lemma SliceConcat<T>(s: seq<T>, i: nat, j: nat)
    requires i <= j <= |s|
    ensures s[..i] + s[i..j] == s[..j]
  {
  }

  /** Natural-number power; `Pow(b, 0) == 1`, as Python's `b ** 0` for an int base. */
  function Pow(b: nat, e: nat): (r: nat)
  {
    if e == 0 then 1 else b * Pow(b, e - 1)
  }

  /**
   * The padding loop `while len(answers) < n: answers.append("")`:
   * blanks are appended until the length reaches `n`; a list already that long is untouched.
   */
  function Padded(answers: seq<string>, n: nat): (r: seq<string>)
    ensures |answers| >= n ==> r == answers
    ensures |answers| < n ==> |r| == n
    ensures r[..|answers|] == answers
    ensures forall k :: |answers| <= k < |r| ==> r[k] == ""
  {
    if |answers| >= n then answers else answers + Repeat("", n - |answers|)
  }

  /**
   * `if len(answers) != n: while len(answers) < n: answers.append("")`,
   * on a copy of the list.
   */
  method PadAnswers(answers: seq<string>, n: nat) returns (padded: seq<string>)
    ensures padded == Padded(answers, n)
  {
    padded := answers;
    if |padded| != n {
      while |padded| < n
        invariant |answers| <= |padded|
        invariant |answers| < n ==> |padded| <= n
        invariant |answers| >= n ==> padded == answers
        invariant padded == answers + Repeat("", |padded| - |answers|)
      {
        padded := padded + [""];
      }
    }
  }
}
