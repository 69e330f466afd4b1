/** Small shared vocabulary: optional values, chat messages, the completion
    service's reply, and the floor(Math.random() * n) index draw. */
module Base {

  /** A value that may be absent (JavaScript `undefined`). */
  datatype Option<+T> = None | Some(value: T) {
    /** The value, or `default` when absent (the `x || default` idiom on objects). */
    function GetOr(default: T): (r: T)
      ensures Some? ==> r == value
      ensures None? ==> r == default
    {
      match this
      case Some(v) => v
      case None => default
    }
  }

  /** Author of a chat message, as the completion service understands it. */
  datatype Role = System | User | Assistant

  /** One chat message `{role, content}`. */
  datatype Message = Message(role: Role, content: string)

  /** What the completion service answers: the completion text, or a rejected request. */
  datatype Reply = Answered(text: string) | Failed

  /** A draw of `Math.random()`: a real in [0, 1). */
  type Fraction = r: real | 0.0 <= r < 1.0

  /** `Math.floor(u * n)`: the index a uniform draw `u` picks among `n` items. */
  function PickIndex(u: Fraction, n: nat): (i: nat)
    requires n > 0
    ensures i < n
    ensures i as real <= u * n as real < i as real + 1.0
  {
    var x := u * n as real;
    assert 0.0 <= x < n as real;
    x.Floor
  }

  /** Every index below `n` is reached by some draw: the pick is onto [0, n). */
  lemma PickIndexOnto(n: nat, i: nat)
    requires i < n
    ensures exists u: Fraction :: PickIndex(u, n) == i
  {
    var u: Fraction := i as real / n as real;
    assert u * n as real == i as real;
    assert PickIndex(u, n) == i;
  }
}
