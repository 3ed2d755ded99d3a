/** The key-action table of `Input` (Source/Input/Input.cpp, Source/Input/Input.hpp): named
    mappings from keys or mouse buttons to the latest press data, the press-state normalisation a
    read performs, and the axis a pair of mappings resolves to. Keys, buttons and modifiers are
    their enum values; clock readings are integers. */
module Inputs {
  import opened Wrappers

  /** `Input::Key`, `Input::Mouse` and `Input::Mod`, by enum value. */
  type Key = int
  type Mouse = int
  type Mod = int

  const KEY_NONE: Key := -1
  const MOUSE_NONE: Mouse := -1
  const MOD_NONE: Mod := 0

  /** `Input::PressState`. */
  datatype PressState = NoState | JustReleased | Released | JustPressed | Pressed

  /** The enumerator values: `NONE=-1, JUST_RELEASED=3, RELEASED=1, JUST_PRESSED=12, PRESSED=4`. */
  function Value(p: PressState): int
  {
    match p
    case NoState => -1
    case JustReleased => 3
    case Released => 1
    case JustPressed => 12
    case Pressed => 4
  }

  /** The low byte of the enumerator in two's complement, which is all a `&` against the small
      positive flags looks at: `NONE` has every bit set. */
  function Bits(p: PressState): bv8
  {
    (Value(p) % 256) as bv8
  }

  /** `state & flag` taken as a condition. */
  predicate HasFlag(state: PressState, flag: PressState)
  {
    Bits(state) & Bits(flag) != 0
  }

  /** The states a key is up in, as far as the axis is concerned. */
  predicate Up(p: PressState)
  {
    p == NoState || p == Released || p == JustReleased
  }

  /** The states a key is down in. */
  predicate Down(p: PressState)
  {
    p == Pressed || p == JustPressed
  }

  /** The two flags `getKeyAxis` tests split the states by: every state but `NONE` (here `NoState`)
      carries exactly one of them, and `NONE` carries both. */
  lemma FlagsOfStates(p: PressState)
    ensures HasFlag(p, Released) <==> Up(p)
    ensures HasFlag(p, Pressed) <==> Down(p) || p == NoState
  {
    match p
    case NoState =>
    case JustReleased =>
    case Released =>
    case JustPressed =>
    case Pressed =>
  }

  // ---------------------------------------------------------------------------------------------
  // Mapping data

  /** `Input::KeyData`; a default time point is the clock's epoch, 0. */
  datatype KeyData = KeyData(actionName: string, key: Key, mod: Mod, pressState: PressState,
                             prevPressState: PressState, justPressTimestamp: int, justReleaseTimestamp: int)

  const DefaultKeyData := KeyData("", KEY_NONE, MOD_NONE, Released, Released, 0, 0)

  /** `Input::KeyMapping` without its callbacks. */
  datatype KeyMapping = KeyMapping(keys: seq<Key>, data: KeyData)

  /** `Input::MouseData` without its cursor coordinates and scroll offsets. */
  datatype MouseData = MouseData(actionName: string, button: Mouse, mod: Mod, pressState: PressState,
                                 prevPressState: PressState, justPressTimestamp: int, justReleaseTimestamp: int)

  const DefaultMouseData := MouseData("", MOUSE_NONE, MOD_NONE, Released, Released, 0, 0)

  /** `Input::MouseMapping` without its callbacks. */
  datatype MouseMapping = MouseMapping(buttons: seq<Mouse>, data: MouseData)

  /** The press-state step of `getKeyMapping`: when asked to update and nothing new has arrived since
      the last read, a just-pressed key becomes held and a just-released one becomes up; the state
      read is then remembered as the previous one. */
  function Normalised(d: KeyData, updatePressState: bool): (r: KeyData)
    ensures r.prevPressState == r.pressState
    ensures r == d.(pressState := r.pressState, prevPressState := r.pressState)
    ensures !updatePressState ==> r.pressState == d.pressState
  {
    var p :=
      if updatePressState && d.pressState == d.prevPressState then
        if d.pressState == JustPressed then Pressed
        else if d.pressState == JustReleased then Released
        else d.pressState
      else d.pressState;
    d.(pressState := p, prevPressState := p)
  }

  /** A read leaves the previous state equal to the current one and touches nothing else; it moves
      the state only from a just-pressed or just-released state that an earlier read had seen. */
  lemma NormalisedShape(d: KeyData, updatePressState: bool)
    ensures var r := Normalised(d, updatePressState);
            && r.prevPressState == r.pressState
            && r == d.(pressState := r.pressState, prevPressState := r.pressState)
            && (r.pressState != d.pressState <==>
                  updatePressState && d.pressState == d.prevPressState && (d.pressState == JustPressed || d.pressState == JustReleased))
  {
  }

  /** A fresh press is reported as just pressed by the first updating read and as held by every read
      after it; likewise a fresh release. */
  lemma JustPressedSeenOnce(d: KeyData)
    requires d.pressState != d.prevPressState
    ensures var first := Normalised(d, true);
            var second := Normalised(first, true);
            && first.pressState == d.pressState
            && (d.pressState == JustPressed ==> second.pressState == Pressed)
            && (d.pressState == JustReleased ==> second.pressState == Released)
            && Normalised(second, true) == second
  {
    var first := Normalised(d, true);
    assert first.pressState == d.pressState;
    var second := Normalised(first, true);
    assert second.pressState != JustPressed && second.pressState != JustReleased;
  }

  // ---------------------------------------------------------------------------------------------
  // Axis resolution

  /** The decision inside `getKeyAxis`, over the two states and press times as read. */
  function Axis(p1: PressState, p2: PressState, pressed1: int, pressed2: int): (axis: int)
    ensures -1 <= axis <= 1
  {
    if HasFlag(p1, Released) && HasFlag(p2, Released) then 0
    else if HasFlag(p1, Pressed) && HasFlag(p2, Released) then -1
    else if HasFlag(p1, Released) && HasFlag(p2, Pressed) then 1
    else if p1 == p2 then (if pressed1 > pressed2 then -1 else 1)
    else 0
  }

  /** The axis by key position: both up gives 0; only the negative key down gives -1; only the
      positive one down gives 1; both down in the same state gives the later press's direction
      (ties go positive); one just pressed and the other held gives 0. */
  lemma AxisByPosition(p1: PressState, p2: PressState, pressed1: int, pressed2: int)
    ensures var axis := Axis(p1, p2, pressed1, pressed2);
            && (Up(p1) && Up(p2) ==> axis == 0)
            && (Down(p1) && Up(p2) ==> axis == -1)
            && (Up(p1) && Down(p2) ==> axis == 1)
            && (Down(p1) && p1 == p2 ==> axis == (if pressed1 > pressed2 then -1 else 1))
            && (Down(p1) && Down(p2) && p1 != p2 ==> axis == 0)
  {
    FlagsOfStates(p1);
    FlagsOfStates(p2);
  }

  /** The axis is one of -1, 0, 1, and swapping the keys negates it unless two equal held states
      were pressed at the same instant. */
  lemma AxisAntisymmetric(p1: PressState, p2: PressState, pressed1: int, pressed2: int)
    ensures -1 <= Axis(p1, p2, pressed1, pressed2) <= 1
    ensures !(p1 == p2 && Down(p1) && pressed1 == pressed2) ==>
              Axis(p2, p1, pressed2, pressed1) == -Axis(p1, p2, pressed1, pressed2)
  {
    FlagsOfStates(p1);
    FlagsOfStates(p2);
  }

  /** The data `processKeyActions` records for an event at clock reading `now`: a release stamps the
      release time, anything else the press time. */
  function Stamped(key: Key, pressState: PressState, mod: Mod, now: int): (d: KeyData)
    ensures d.key == key && d.pressState == pressState && d.mod == mod && d.actionName == ""
    ensures d.prevPressState == Released
    ensures pressState == JustReleased ==> d.justReleaseTimestamp == now && d.justPressTimestamp == 0
    ensures pressState != JustReleased ==> d.justPressTimestamp == now && d.justReleaseTimestamp == 0
  {
    var d := DefaultKeyData.(key := key, pressState := pressState, mod := mod);
    if pressState == JustReleased then d.(justReleaseTimestamp := now) else d.(justPressTimestamp := now)
  }

  /** A just-pressed or just-released event recorded by `processKeyActions` is seen as such by the
      next updating read and as held or up by the read after it. */
  lemma StampedSeenOnce(key: Key, pressState: PressState, mod: Mod, now: int, name: string)
    requires pressState == JustPressed || pressState == JustReleased
    ensures var first := Normalised(Stamped(key, pressState, mod, now).(actionName := name), true);
            && first.pressState == pressState
            && Normalised(first, true).pressState == (if pressState == JustPressed then Pressed else Released)
  {
    JustPressedSeenOnce(Stamped(key, pressState, mod, now).(actionName := name));
  }

  /** The key table after `getKeyMapping(name)` reads a known name: that mapping's data is
      normalised and every other mapping is as it was. */
  function Read(actions: map<string, KeyMapping>, name: string, updatePressState: bool): (after: map<string, KeyMapping>)
    requires name in actions
    ensures after.Keys == actions.Keys
    ensures after[name].keys == actions[name].keys
    ensures after[name].data == Normalised(actions[name].data, updatePressState)
    ensures forall other :: other in actions && other != name ==> after[other] == actions[other]
  {
    actions[name := actions[name].(data := Normalised(actions[name].data, updatePressState))]
  }

  /** The axis `getKeyAxis` decides from the states and press times two mappings hold. */
  function MappingAxis(actions: map<string, KeyMapping>, name1: string, name2: string): (axis: int)
    requires name1 in actions && name2 in actions
    ensures -1 <= axis <= 1
  {
    var d1, d2 := actions[name1].data, actions[name2].data;
    Axis(d1.pressState, d2.pressState, d1.justPressTimestamp, d2.justPressTimestamp)
  }

  /** `Input`: the key and mouse action tables and the locks that guard them. */
  class Input {
    var actions: map<string, KeyMapping>
    var mouseActions: map<string, MouseMapping>
    /** Set once a key mapping has been handed out; new key names are then refused. */
    var keyLock: bool
    /** Set once a mouse mapping has been handed out; new mouse names are still added. */
    var mouseLock: bool

    constructor ()
      ensures actions == map[] && mouseActions == map[]
      ensures !keyLock && !mouseLock
    {
      actions := map[];
      mouseActions := map[];
      keyLock := false;
      mouseLock := false;
    }

    /** `hasKeyMapping`. */
    method HasKeyMapping(name: string) returns (b: bool)
      ensures b <==> name in actions
    {
      b := name in actions;
    }

    /** `getKeyMapping`: for a known name, sets the key lock, normalises the mapping's press state
        in place and hands the mapping out; for an unknown name, nothing. */
    method GetKeyMapping(name: string, updatePressState: bool) returns (mapping: Option<KeyMapping>)
      modifies this`actions, this`keyLock
      ensures name !in old(actions) ==> mapping == None && actions == old(actions) && keyLock == old(keyLock)
      ensures name in old(actions) ==>
                && keyLock
                && actions == Read(old(actions), name, updatePressState)
                && mapping == Some(actions[name])
    {
      if name !in actions {
        return None;
      }
      keyLock := true;
      var action := actions[name];
      var data := action.data;
      if updatePressState && data.pressState == data.prevPressState {
        if data.pressState == JustPressed {
          data := data.(pressState := Pressed);
        } else if data.pressState == JustReleased {
          data := data.(pressState := Released);
        }
      }
      data := data.(prevPressState := data.pressState);
      actions := actions[name := action.(data := data)];
      return Some(actions[name]);
    }

    /** `addKeyMapping(name, key)`: a known name gets `key` at the end of its list (without a read,
        so neither the lock nor the press state moves); a new name is refused under the key lock
        and otherwise gets a fresh mapping of just `key`. */
    method AddKeyMapping(name: string, key: Key)
      modifies this`actions
      ensures name in old(actions) ==>
                actions == old(actions)[name := old(actions)[name].(keys := old(actions)[name].keys + [key])]
      ensures name !in old(actions) && keyLock ==> actions == old(actions)
      ensures name !in old(actions) && !keyLock ==> actions == old(actions)[name := KeyMapping([key], DefaultKeyData)]
    {
      if name in actions {
        var mapping := actions[name];
        actions := actions[name := mapping.(keys := mapping.keys + [key])];
        return;
      }
      if keyLock {
        return;
      }
      actions := actions[name := KeyMapping([key], DefaultKeyData)];
    }

    /** `addKeyMapping(name, keys)`: a known name is read through `getKeyMapping` (which sets the
        lock and normalises its state) and gets `keys` in front of its list; a new name is refused
        under the key lock and otherwise gets a fresh mapping of exactly `keys`. */
    method AddKeyMappings(name: string, keys: seq<Key>)
      modifies this`actions, this`keyLock
      ensures name in old(actions) ==>
                var m := old(actions)[name];
                && keyLock
                && actions == old(actions)[name := KeyMapping(keys + m.keys, Normalised(m.data, true))]
      ensures name !in old(actions) ==> keyLock == old(keyLock)
      ensures name !in old(actions) && old(keyLock) ==> actions == old(actions)
      ensures name !in old(actions) && !old(keyLock) ==> actions == old(actions)[name := KeyMapping(keys, DefaultKeyData)]
    {
      if name in actions {
        var mapping := GetKeyMapping(name, true);
        var m := mapping.value;
        actions := actions[name := m.(keys := keys + m.keys)];
        return;
      }
      if keyLock {
        return;
      }
      actions := actions[name := KeyMapping(keys, DefaultKeyData)];
    }

    /** `getMouseMapping`: for a known name, sets the mouse lock and hands the mapping out. */
    method GetMouseMapping(name: string) returns (mapping: Option<MouseMapping>)
      modifies this`mouseLock
      ensures name !in mouseActions ==> mapping == None && mouseLock == old(mouseLock)
      ensures name in mouseActions ==> mapping == Some(mouseActions[name]) && mouseLock
    {
      if name !in mouseActions {
        return None;
      }
      mouseLock := true;
      return Some(mouseActions[name]);
    }

    /** `addMouseMapping(name, button)`: a known name is read through `getMouseMapping` (setting the
        lock) and gets `button` at the end; a new name always gets a fresh mapping of just `button`,
        the lock only warning. */
    method AddMouseMapping(name: string, button: Mouse)
      modifies this`mouseActions, this`mouseLock
      ensures name in old(mouseActions) ==>
                && mouseLock
                && mouseActions == old(mouseActions)[name := old(mouseActions)[name].(buttons := old(mouseActions)[name].buttons + [button])]
      ensures name !in old(mouseActions) ==>
                mouseLock == old(mouseLock) && mouseActions == old(mouseActions)[name := MouseMapping([button], DefaultMouseData)]
    {
      if name in mouseActions {
        var mapping := GetMouseMapping(name);
        var m := mapping.value;
        mouseActions := mouseActions[name := m.(buttons := m.buttons + [button])];
        return;
      }
      mouseActions := mouseActions[name := MouseMapping([button], DefaultMouseData)];
    }

    /** `addMouseMapping(name, buttons)`: as for one button, with `buttons` put in front. */
    method AddMouseMappings(name: string, buttons: seq<Mouse>)
      modifies this`mouseActions, this`mouseLock
      ensures name in old(mouseActions) ==>
                && mouseLock
                && mouseActions == old(mouseActions)[name := old(mouseActions)[name].(buttons := buttons + old(mouseActions)[name].buttons)]
      ensures name !in old(mouseActions) ==>
                mouseLock == old(mouseLock) && mouseActions == old(mouseActions)[name := MouseMapping(buttons, DefaultMouseData)]
    {
      if name in mouseActions {
        var mapping := GetMouseMapping(name);
        var m := mapping.value;
        mouseActions := mouseActions[name := m.(buttons := buttons + m.buttons)];
        return;
      }
      mouseActions := mouseActions[name := MouseMapping(buttons, DefaultMouseData)];
    }

    /** `removeKeyMapping`: the name is gone, whether or not it was there, and the answer is true. */
    method RemoveKeyMapping(name: string) returns (removed: bool)
      modifies this`actions
      ensures removed && actions == old(actions) - {name}
    {
      actions := actions - {name};
      return true;
    }

    /** `getKeyAxis(name1, name2)`: both mappings are read (the second read sees the first's
        effects, which matters when the names coincide), then the axis is decided on the states and
        press times the mappings hold after both reads. Both names must be mapped: the source
        dereferences the results unchecked. */
    method GetKeyAxis(name1: string, name2: string, updatePressState: bool) returns (axis: int)
      requires name1 in actions && name2 in actions
      modifies this`actions, this`keyLock
      ensures keyLock && actions == Read(Read(old(actions), name1, updatePressState), name2, updatePressState)
      ensures axis == MappingAxis(actions, name1, name2)
      ensures -1 <= axis <= 1
      ensures name1 != name2 ==>
                && actions[name1].data == Normalised(old(actions)[name1].data, updatePressState)
                && actions[name2].data == Normalised(old(actions)[name2].data, updatePressState)
    {
      var map1 := GetKeyMapping(name1, updatePressState);
      var map2 := GetKeyMapping(name2, updatePressState);
      var d1, d2 := actions[name1].data, actions[name2].data;
      axis := Axis(d1.pressState, d2.pressState, d1.justPressTimestamp, d2.justPressTimestamp);
    }

    /** `getKeyAxis(name1, name2, name3, name4)`: the first pair's axis, then the second's. */
    method GetKeyAxes(name1: string, name2: string, name3: string, name4: string, updatePressState: bool)
      returns (x: int, y: int)
      requires name1 in actions && name2 in actions && name3 in actions && name4 in actions
      modifies this`actions, this`keyLock
      ensures keyLock
      ensures var mid := Read(Read(old(actions), name1, updatePressState), name2, updatePressState);
              && x == MappingAxis(mid, name1, name2)
              && actions == Read(Read(mid, name3, updatePressState), name4, updatePressState)
              && y == MappingAxis(actions, name3, name4)
      ensures -1 <= x <= 1 && -1 <= y <= 1
    {
      x := GetKeyAxis(name1, name2, updatePressState);
      y := GetKeyAxis(name3, name4, updatePressState);
    }

    /** `processKeyActions` for a key event at clock reading `now`: every mapping listing the key
        takes the event's data under its own name; the others are untouched. The data passed on
        carries the name of the last matching mapping visited, or none. */
    method ProcessKeyActions(inputKey: Key, pressState: PressState, inputMod: Mod, now: int)
      returns (data: KeyData)
      modifies this`actions
      ensures actions.Keys == old(actions).Keys
      ensures forall name :: name in old(actions) ==>
                actions[name] == if inputKey in old(actions)[name].keys
                                 then old(actions)[name].(data := Stamped(inputKey, pressState, inputMod, now).(actionName := name))
                                 else old(actions)[name]
      ensures data == Stamped(inputKey, pressState, inputMod, now).(actionName := data.actionName)
      ensures data.actionName == "" || (data.actionName in old(actions) && inputKey in old(actions)[data.actionName].keys)
    {
      var stamped := Stamped(inputKey, pressState, inputMod, now);
      data := stamped;
      var remaining := actions.Keys;
      while remaining != {}
        invariant remaining <= old(actions).Keys
        invariant actions.Keys == old(actions).Keys
        invariant forall name :: name in remaining ==> actions[name] == old(actions)[name]
        invariant forall name :: name in old(actions) && name !in remaining ==>
                    actions[name] == if inputKey in old(actions)[name].keys
                                     then old(actions)[name].(data := stamped.(actionName := name))
                                     else old(actions)[name]
        invariant data == stamped.(actionName := data.actionName)
        invariant data.actionName == "" || (data.actionName in old(actions) && inputKey in old(actions)[data.actionName].keys)
        decreases remaining
      {
        var name :| name in remaining;
        var mapping := actions[name];
        if inputKey in mapping.keys {
          data := data.(actionName := name);
          actions := actions[name := mapping.(data := data)];
        }
        remaining := remaining - {name};
      }
    }
  }
}
