/** Keyboard control of the heading: arrow keys and W/A/S/D, with the guard
    that forbids turning straight back. */
module Controls {
  import opened Grid

  datatype Option<T> = None | Some(value: T)

  /** The keys the game distinguishes; every other key is `OtherKey`. */
  datatype Key = ArrowUp | ArrowDown | ArrowLeft | ArrowRight | KeyW | KeyA | KeyS | KeyD | OtherKey

  /** The heading a key asks for, if any. */
  function Requested(k: Key): (r: Option<Direction>)
    ensures r.None? <==> k == OtherKey
  {
    match k
    case ArrowUp => Some(Up)
    case KeyW => Some(Up)
    case ArrowDown => Some(Down)
    case KeyS => Some(Down)
    case ArrowLeft => Some(Left)
    case KeyA => Some(Left)
    case ArrowRight => Some(Right)
    case KeyD => Some(Right)
    case OtherKey => None
  }

  /** The heading after one key press while playing, written as the chain
      of tests the game performs: each key group sets its heading unless the
      current heading is the opposite one. */
  function ApplyKey(current: Direction, k: Key): (r: Direction)
    // never a direct reversal of the heading held at this moment
    ensures r != Opposite(current)
    // any other requested heading is taken
    ensures Requested(k).Some? && Requested(k).value != Opposite(current) ==> r == Requested(k).value
    // a reversal request or a key that requests nothing changes nothing
    ensures Requested(k).None? || Requested(k).value == Opposite(current) ==> r == current
  {
    if (k == ArrowUp || k == KeyW) && current != Down then Up
    else if (k == ArrowDown || k == KeyS) && current != Up then Down
    else if (k == ArrowLeft || k == KeyA) && current != Right then Left
    else if (k == ArrowRight || k == KeyD) && current != Left then Right
    else current
  }

  /** The heading stays as it was exactly when the key requests nothing,
      requests a reversal, or requests the heading already held. */
  lemma ApplyKeyNoOp(current: Direction, k: Key)
    ensures ApplyKey(current, k) == current <==>
      (Requested(k).None? || Requested(k).value == Opposite(current) || Requested(k).value == current)
  {
  }
}
