/** Values shared by every component of the selection core: the error
    results that stand for the source's fatal exits and key errors, and the
    few string and sequence operations the source takes from Python. */
module Common {

  datatype Option<T> = None | Some(value: T)

  /** The ways the selection core stops instead of returning a value. */
  datatype Error =
    | UnknownMinorityClass(name: string)  // label_dict[name] raises KeyError
    | NoMajorityClass                     // majority_class is never assigned
    | UnknownPrefix(labelName: string)    // a predicted label has neither prefix: exit(1)
    | ZeroStepSize                        // zero samples requested: exit(1)
    | InsideAtStart                       // el[-1] of an empty partial sequence: IndexError

  datatype Result<T> = Ok(value: T) | Err(error: Error)

  /** Python's str.startswith. */
  predicate StartsWith(s: string, prefix: string)
  {
    |prefix| <= |s| && s[..|prefix|] == prefix
  }

  /** Python's slice s[n:], which is empty when n is past the end. */
  function Drop(s: string, n: nat): (r: string)
    ensures n <= |s| ==> s == s[..n] + r
    ensures n >= |s| ==> r == []
  {
    if n <= |s| then s[n..] else []
  }

  /** Python's [x] * n. */
  function Repeat(x: int, n: nat): (r: seq<int>)
    ensures |r| == n
    ensures forall i :: 0 <= i < n ==> r[i] == x
  {
    if n == 0 then [] else Repeat(x, n - 1) + [x]
  }

  function Min(a: int, b: int): int
  {
    if a <= b then a else b
  }

  /** No element occurs twice. */
  predicate Distinct(s: seq<int>)
  {
    forall i, j :: 0 <= i < j < |s| ==> s[i] != s[j]
  }
}
