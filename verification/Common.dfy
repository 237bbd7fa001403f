/** Result types shared by the replay modules. */
module Common {

  /** A Python value that may be `None`. */
  datatype Option<+T> = None | Some(value: T)

  /** A call that either returns or raises; the error says which check raised. */
  datatype Result<+T, +E> = Ok(value: T) | Err(error: E)

  // ------------------------------------------------------------------
  // Loops that stop at the first turn that raises
  // ------------------------------------------------------------------

  /** The first `n` turns of a loop all succeed. */
  ghost predicate UpTo(turn: nat -> bool, n: nat) {
    n == 0 || (UpTo(turn, n - 1) && turn(n - 1))
  }

  lemma {:induction false} UpToEach(turn: nat -> bool, k: nat, n: nat)
    requires k < n && UpTo(turn, n)
    ensures turn(k)
  {
    if k < n - 1 {
      UpToEach(turn, k, n - 1);
    }
  }

  lemma UpToStops(turn: nat -> bool, k: nat, n: nat)
    requires k < n && !turn(k)
    ensures !UpTo(turn, n)
  {
    if UpTo(turn, n) {
      UpToEach(turn, k, n);
    }
  }
}
