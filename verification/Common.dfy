/** Values shared by every component of the game server control model. */
module Common {

  datatype Option<+T> = None | Some(value: T)

  function Max(a: int, b: int): int {
    if a >= b then a else b
  }

  function Min(a: int, b: int): int {
    if a <= b then a else b
  }

  /**
   A request field before parsing: missing, a value that does not parse, or an integer. A null counts as missing
   where the source supplies a default for it, and as a value that does not parse where the source only asks
   whether the field is there: the port and the counts of a registration, the size of a session.
   */
  datatype Raw = Absent | NotANumber | Num(n: int)

  /** The control plane's `clampInteger`: a field that does not parse takes the fallback, unclamped. */
  function ClampInteger(field: Raw, fallback: int, lo: int, hi: int): (r: int)
    ensures lo <= hi && lo <= fallback <= hi ==> lo <= r <= hi
    ensures lo <= hi && field.Num? ==> lo <= r <= hi
  {
    match field
    case Num(n) => if n < lo then lo else if n > hi then hi else n
    case _ => fallback
  }

  lemma SubsetSize<T>(a: set<T>, b: set<T>)
    ensures a <= b ==> |a| <= |b|
  {
    if a <= b {
      assert b == a + (b - a);
      assert |a + (b - a)| == |a| + |b - a|;
    }
  }

  /** Going past one element of a list handles it when it is wanted, and nothing else. */
  lemma Passed<T>(wanted: set<T>, todo: set<T>, x: T)
    requires x in todo
    ensures x in wanted ==> wanted - (todo - {x}) == wanted - todo + {x} && x !in wanted - todo
    ensures x !in wanted ==> wanted - (todo - {x}) == wanted - todo
  {
  }
}
