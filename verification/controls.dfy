/**
 The badge's buttons as the game reads them: a snapshot of the buttons held
 at one update, and the fixed order in which the update consults them.
 */
module Controls {
  import opened Board

  datatype Button = RightKey | LeftKey | UpKey | DownKey | ConfirmKey | CancelKey

  /** The order in which an update looks at the buttons; the first one held
      wins. CONFIRM is not consulted at all. */
  const Priority: seq<Button> := [RightKey, LeftKey, UpKey, DownKey, CancelKey]

  datatype Press = NoPress | Pressed(button: Button)

  /** The first button of `order` that is held, if any: the reference
      definition of which press an update acts on. */
  function FirstHeld(order: seq<Button>, held: set<Button>): (p: Press)
    ensures p.Pressed? ==> p.button in held
    ensures p.Pressed? ==> exists i :: 0 <= i < |order| && order[i] == p.button
                                     && forall j :: 0 <= j < i ==> order[j] !in held
    ensures p.NoPress? <==> forall i :: 0 <= i < |order| ==> order[i] !in held
  {
    if |order| == 0 then NoPress
    else if order[0] in held then Pressed(order[0])
    else
      var p := FirstHeld(order[1..], held);
      assert forall i :: 1 <= i < |order| ==> order[i] == order[1..][i - 1];
      if p.Pressed? then
        var i :| 0 <= i < |order[1..]| && order[1..][i] == p.button
                 && forall j :: 0 <= j < i ==> order[1..][j] !in held;
        assert order[i + 1] == p.button;
        assert forall j :: 0 <= j < i + 1 ==> order[j] !in held;
        p
      else p
  }

  /** The heading a direction button selects; other buttons select none. */
  function Steering(b: Button): (d: Direction)
    ensures d == Unset <==> b == ConfirmKey || b == CancelKey
  {
    match b
    case RightKey => Right
    case LeftKey => Left
    case UpKey => Up
    case DownKey => Down
    case ConfirmKey => Unset
    case CancelKey => Unset
  }

  /** The press an update acts on, spelled out as the chain of tests the
      update performs. */
  lemma PriorityUnfolds(held: set<Button>)
    ensures FirstHeld(Priority, held) ==
      if RightKey in held then Pressed(RightKey)
      else if LeftKey in held then Pressed(LeftKey)
      else if UpKey in held then Pressed(UpKey)
      else if DownKey in held then Pressed(DownKey)
      else if CancelKey in held then Pressed(CancelKey)
      else NoPress
  {
    var o1: seq<Button> := [LeftKey, UpKey, DownKey, CancelKey];
    var o2: seq<Button> := [UpKey, DownKey, CancelKey];
    var o3: seq<Button> := [DownKey, CancelKey];
    var o4: seq<Button> := [CancelKey];
    assert Priority[1..] == o1 && o1[1..] == o2 && o2[1..] == o3 && o3[1..] == o4;
    assert o4[1..] == [];
    assert FirstHeld(o4, held) == if CancelKey in held then Pressed(CancelKey) else NoPress;
    assert FirstHeld(o3, held) == if DownKey in held then Pressed(DownKey) else FirstHeld(o4, held);
    assert FirstHeld(o2, held) == if UpKey in held then Pressed(UpKey) else FirstHeld(o3, held);
    assert FirstHeld(o1, held) == if LeftKey in held then Pressed(LeftKey) else FirstHeld(o2, held);
  }
}
