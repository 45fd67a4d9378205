/** The pressed-key table of src/keyboard.c, and what the server is told about keys. */
module Keyboard {

  /** PRESSED_KEYS_MAX */
  const MAX: nat := 256

  /** The keys in the table; 0 marks an empty slot. */
  function Held(slots: seq<nat>): set<nat> {
    set i | 0 <= i < |slots| && slots[i] != 0 :: slots[i]
  }

  predicate NoDuplicates(slots: seq<nat>) {
    forall i, j :: 0 <= i < j < |slots| && slots[i] != 0 ==> slots[i] != slots[j]
  }

  /** Key presses and releases as sent to the server. */
  datatype Message = Message(key: nat, down: bool)

  /** The table refines a set of at most MAX keys. A key that is pressed but does not fit is lost:
      the server is told, the table is not. The key code 0 never fits. */
  datatype Keys = Keys(held: set<nat>, lost: set<nat>) {
    predicate Fits(key: nat) {
      key in held || (key != 0 && |held| < MAX)
    }

    function Press(key: nat): Keys {
      if Fits(key) then Keys(held + {key}, lost - {key}) else Keys(held, lost + {key})
    }

    function Release(key: nat): Keys {
      Keys(held - {key}, lost - {key})
    }
  }

  /** What the table makes of the messages. */
  function Kept(log: seq<Message>): Keys {
    if log == [] then Keys({}, {})
    else
      var before, last := Kept(log[..|log| - 1]), log[|log| - 1];
      if last.down then before.Press(last.key) else before.Release(last.key)
  }

  /** The keys that are down as far as the server knows. */
  function Server(log: seq<Message>): set<nat> {
    if log == [] then {}
    else
      var before, last := Server(log[..|log| - 1]), log[|log| - 1];
      if last.down then before + {last.key} else before - {last.key}
  }

  /** The slots in use, in order. */
  function Used(slots: seq<nat>): seq<nat> {
    if slots == [] then []
    else Used(slots[..|slots| - 1]) + (if slots[|slots| - 1] == 0 then [] else [slots[|slots| - 1]])
  }

  function Messages(keys: seq<nat>, down: bool): (log: seq<Message>)
    ensures |log| == |keys|
  {
    seq(|keys|, k requires 0 <= k < |keys| => Message(keys[k], down))
  }

  /** With no duplicates every held key is in exactly one slot. */
  lemma {:induction false} UsedOnce(slots: seq<nat>)
    requires NoDuplicates(slots)
    ensures multiset(Used(slots)) == multiset(Held(slots))
    ensures |Held(slots)| == |Used(slots)| <= |slots|
    ensures |Used(slots)| == |slots| <==> 0 !in slots
  {
    hide Held, NoDuplicates;
    if slots == [] {
      NoneHeld(slots);
    } else {
      var init, last := slots[..|slots| - 1], slots[|slots| - 1];
      assert slots == init + [last];
      PrefixHasNoDuplicates(init, last);
      UsedOnce(init);
      if last == 0 {
        HeldZero(init);
      } else {
        HeldLast(init, last);
      }
    }
  }

  lemma {:induction false} PrefixHasNoDuplicates(init: seq<nat>, last: nat)
    requires NoDuplicates(init + [last])
    ensures NoDuplicates(init)
  {
    var slots := init + [last];
    assert forall i :: 0 <= i < |init| ==> slots[i] == init[i];
  }

  lemma {:induction false} HeldZero(init: seq<nat>)
    ensures Held(init + [0]) == Held(init)
  {
    var slots := init + [0];
    assert forall i :: 0 <= i < |init| ==> slots[i] == init[i];
  }

  lemma {:induction false} HeldLast(init: seq<nat>, last: nat)
    requires NoDuplicates(init + [last]) && last != 0
    ensures Held(init + [last]) == Held(init) + {last} && last !in Held(init)
  {
    var slots := init + [last];
    forall i | 0 <= i < |init|
      ensures init[i] != last
    {
      assert slots[i] == init[i] && slots[|init|] == last;
    }
    forall k | k in Held(init) + {last}
      ensures k in Held(slots)
    {
      if k == last {
        assert slots[|init|] == k;
      } else {
        var i :| 0 <= i < |init| && init[i] == k;
        assert slots[i] == k;
      }
    }
  }

  /** Putting a new key into an empty slot. */
  lemma {:induction false} SlotFilled(slots: seq<nat>, i: nat, key: nat)
    requires NoDuplicates(slots) && i < |slots| && slots[i] == 0 && key != 0 && key !in slots
    ensures NoDuplicates(slots[i := key]) && Held(slots[i := key]) == Held(slots) + {key}
  {
    var after := slots[i := key];
    assert after[i] == key;
    forall k | k in Held(slots)
      ensures k in Held(after)
    {
      var j :| 0 <= j < |slots| && slots[j] == k;
      assert after[j] == k;
    }
  }

  lemma {:induction false} SlotEmptied(slots: seq<nat>, i: nat)
    requires NoDuplicates(slots) && i < |slots|
    ensures NoDuplicates(slots[i := 0]) && Held(slots[i := 0]) == Held(slots) - {slots[i]}
  {
    var after := slots[i := 0];
    forall k | k in Held(slots) - {slots[i]}
      ensures k in Held(after)
    {
      var j :| 0 <= j < |slots| && slots[j] == k;
      assert after[j] == k;
    }
  }

  lemma {:induction false} ServerNext(log: seq<Message>, m: Message)
    ensures Server(log + [m]) == if m.down then Server(log) + {m.key} else Server(log) - {m.key}
  {
    assert (log + [m])[..|log|] == log;
  }

  lemma {:induction false} KeptNext(log: seq<Message>, m: Message)
    ensures Kept(log + [m]) == if m.down then Kept(log).Press(m.key) else Kept(log).Release(m.key)
  {
    assert (log + [m])[..|log|] == log;
  }

  /** The keys held and lost are those down. */
  lemma {:induction false} KeptAndLost(log: seq<Message>)
    ensures var s := Kept(log); s.held !! s.lost && s.held + s.lost == Server(log) && |s.held| <= 256 && 0 !in s.held
  {
    if log != [] {
      KeptAndLost(log[..|log| - 1]);
    }
  }

  /** Nothing is lost at any time exactly if at no time more than 256 keys are down, nor one with code 0. */
  lemma {:induction false} NoKeyLost(log: seq<Message>)
    ensures (forall i :: 0 <= i <= |log| ==> Kept(log[..i]).lost == {}) <==>
            (forall i :: 0 <= i <= |log| ==> |Server(log[..i])| <= 256 && 0 !in Server(log[..i]))
  {
    forall i | 0 <= i <= |log|
      ensures Kept(log[..i]).lost == {} ==> |Server(log[..i])| <= MAX && 0 !in Server(log[..i])
    {
      KeptAndLost(log[..i]);
      assert Kept(log[..i]).lost == {} ==> Server(log[..i]) == Kept(log[..i]).held;
    }
    if forall i :: 0 <= i <= |log| ==> |Server(log[..i])| <= MAX && 0 !in Server(log[..i]) {
      forall i | 0 <= i <= |log|
        ensures Kept(log[..i]).lost == {}
      {
        NothingLost(log, i);
      }
    }
  }

  lemma {:induction false} NothingLost(log: seq<Message>, n: nat)
    requires n <= |log|
    requires forall i :: 0 <= i <= n ==> |Server(log[..i])| <= MAX && 0 !in Server(log[..i])
    ensures Kept(log[..n]).lost == {}
  {
    hide Kept, Server;
    if n == 0 {
      NothingKept(0);
      assert log[..0] == [];
    } else {
      NothingLost(log, n - 1);
      KeptAndLost(log[..n - 1]);
      assert log[..n] == log[..n - 1] + [log[n - 1]];
      KeptNext(log[..n - 1], log[n - 1]);
      ServerNext(log[..n - 1], log[n - 1]);
      var held, key := Kept(log[..n - 1]).held, log[n - 1].key;
      assert held == Server(log[..n - 1]);
      if log[n - 1].down && key !in held {
        assert |held + {key}| == |held| + 1;
      }
    }
  }

  lemma {:induction false} ReleaseKeepsLost(log: seq<Message>, key: nat)
    requires key in Kept(log).held
    ensures Kept(log + [Message(key, false)]).lost == Kept(log).lost
  {
    hide Kept, Server;
    KeptAndLost(log);
    KeptNext(log, Message(key, false));
  }

  /** With an empty table the keys down are those lost before: none if at no time more than MAX were down. */
  lemma {:induction false} LostStayDown(log: seq<Message>, log': seq<Message>)
    requires Kept(log').held == {} && Kept(log').lost == Kept(log).lost
    ensures Server(log') == Kept(log).lost
    ensures (forall i :: 0 <= i <= |log| ==> |Server(log[..i])| <= MAX && 0 !in Server(log[..i])) ==> Server(log') == {}
  {
    hide Kept, Server;
    KeptAndLost(log');
    NoKeyLost(log);
    assert log[..|log|] == log;
  }

  class KeyTable {
    const pressedKeys: array<nat>
    /** What on_event has been given. */
    ghost var log: seq<Message>

    ghost predicate Valid()
      reads this, pressedKeys
    {
      pressedKeys.Length == MAX && NoDuplicates(pressedKeys[..]) && Held(pressedKeys[..]) == Kept(log).held
    }

    constructor ()
      ensures Valid() && log == [] && fresh(pressedKeys)
    {
      pressedKeys := new nat[MAX](_ => 0);
      log := [];
      new;
      assert Held(pressedKeys[..]) == {};
    }

    /** The first slot with the key, or -1. */
    method GetPressedKey(key: nat) returns (index: int)
      ensures -1 <= index < pressedKeys.Length
      ensures index == -1 ==> key !in pressedKeys[..]
      ensures index >= 0 ==> pressedKeys[index] == key
    {
      var i := 0;
      while i < pressedKeys.Length
        invariant i <= pressedKeys.Length
        invariant forall k :: 0 <= k < i ==> pressedKeys[k] != key
      {
        if key == pressedKeys[i] {
          return i;
        }
        i := i + 1;
      }
      index := -1;
    }

    method AddPressedKey(key: nat) returns (ghost fits: bool)
      requires pressedKeys.Length == MAX && NoDuplicates(pressedKeys[..])
      modifies pressedKeys
      ensures NoDuplicates(pressedKeys[..])
      ensures fits == (key in Held(old(pressedKeys[..])) || (key != 0 && |Held(old(pressedKeys[..]))| < MAX))
      ensures Held(pressedKeys[..]) == Held(old(pressedKeys[..])) + (if fits then {key} else {})
    {
      ghost var slots := pressedKeys[..];
      UsedOnce(slots);
      fits := key in Held(slots) || (key != 0 && |Held(slots)| < MAX);
      var index := GetPressedKey(key);
      if index >= 0 {
        if key != 0 {
          assert slots[index] == key;
        }
        return;
      }
      index := GetPressedKey(0);
      if index < 0 {
        return;
      }
      if key == 0 {
        assert false;
      }
      SlotFilled(slots, index, key);
      pressedKeys[index] := key;
      assert pressedKeys[..] == slots[index := key];
    }

    method RemovePressedKey(key: nat)
      requires pressedKeys.Length == MAX && NoDuplicates(pressedKeys[..])
      modifies pressedKeys
      ensures NoDuplicates(pressedKeys[..]) && Held(pressedKeys[..]) == Held(old(pressedKeys[..])) - {key}
      ensures forall i :: 0 <= i < MAX ==>
                pressedKeys[i] == if old(pressedKeys[i]) == key then 0 else old(pressedKeys[i])
    {
      ghost var slots := pressedKeys[..];
      var index := GetPressedKey(key);
      if index < 0 {
        return;
      }
      SlotEmptied(slots, index);
      pressedKeys[index] := 0;
      assert pressedKeys[..] == slots[index := 0];
    }

    method HandleKey(key: nat, down: bool)
      requires Valid()
      modifies this, pressedKeys
      ensures Valid() && log == old(log) + [Message(key, down)]
      ensures !down ==> forall i :: 0 <= i < MAX ==>
                pressedKeys[i] == if old(pressedKeys[i]) == key then 0 else old(pressedKeys[i])
    {
      hide Held, NoDuplicates, Kept;
      KeptNext(log, Message(key, down));
      if down {
        ghost var fits := AddPressedKey(key);
        assert fits ==> Kept(log).Press(key).held == Kept(log).held + {key};
      } else {
        RemovePressedKey(key);
      }
      log := log + [Message(key, down)];
    }

    /** keyboard_enter: the keys that are down when the surface gets the focus, in order. */
    method Enter(codes: seq<nat>)
      requires Valid()
      modifies this, pressedKeys
      ensures Valid() && log == old(log) + Messages(Shifted(codes), true)
      ensures |log| == |old(log)| + |codes|
      ensures forall k :: 0 <= k < |codes| ==> log[|old(log)| + k] == Message(codes[k] + 8, true)
    {
      hide Held, NoDuplicates, Kept;
      var i := 0;
      while i < |codes|
        invariant i <= |codes| && Valid() && log == old(log) + Messages(Shifted(codes[..i]), true)
      {
        assert codes[..i + 1][..i] == codes[..i];
        HandleKey(codes[i] + 8, true);
        i := i + 1;
      }
      assert codes[..i] == codes;
    }

    /** keyboard_leave: exactly one release for every key in the table, which is then empty. The server
        still has the lost keys down, so none if at no time there were more than MAX. */
    method Leave()
      requires Valid()
      modifies this, pressedKeys
      ensures Valid() && Held(pressedKeys[..]) == {}
      ensures log == old(log) + Messages(Used(old(pressedKeys[..])), false)
      ensures Server(log) == Kept(old(log)).lost
      ensures (forall i :: 0 <= i <= |old(log)| ==> |Server(old(log)[..i])| <= MAX && 0 !in Server(old(log)[..i])) ==>
                Server(log) == {}
    {
      hide NoDuplicates, Held, Kept, Server;
      ghost var slots := pressedKeys[..];
      var i := 0;
      while i < MAX
        invariant i <= MAX && Valid() && Kept(log).lost == Kept(old(log)).lost
        invariant forall k :: 0 <= k < MAX ==> pressedKeys[k] == if k < i then 0 else slots[k]
        invariant log == old(log) + Messages(Used(slots[..i]), false)
      {
        assert slots[..i + 1][..i] == slots[..i];
        if pressedKeys[i] != 0 {
          HeldAt(pressedKeys[..], i);
          OthersKept(slots, i);
          ReleaseKeepsLost(log, pressedKeys[i]);
          HandleKey(pressedKeys[i], false);
        }
        i := i + 1;
      }
      assert slots[..i] == slots;
      NoneHeld(pressedKeys[..]);
      LostStayDown(old(log), log);
    }
  }

  /** Key codes are the scan codes plus 8. */
  function Shifted(codes: seq<nat>): (keys: seq<nat>)
    ensures |keys| == |codes|
  {
    seq(|codes|, k requires 0 <= k < |codes| => codes[k] + 8)
  }

  lemma {:induction false} HeldAt(slots: seq<nat>, i: nat)
    requires i < |slots| && slots[i] != 0
    ensures slots[i] in Held(slots)
  {
  }

  lemma {:induction false} OthersKept(slots: seq<nat>, i: nat)
    requires i < |slots| && slots[i] != 0 && NoDuplicates(slots)
    ensures forall k :: i < k < |slots| ==> slots[k] != slots[i]
  {
  }

  lemma {:induction false} NoneHeld(slots: seq<nat>)
    requires forall i :: 0 <= i < |slots| ==> slots[i] == 0
    ensures Held(slots) == {}
  {
  }

  /** The k-th message is a press of the key, and the last about it. */
  ghost predicate LastIsPress(log: seq<Message>, key: nat, k: nat) {
    k < |log| && log[k] == Message(key, true) && forall j :: k < j < |log| ==> log[j].key != key
  }

  lemma {:induction false} PressShows(log: seq<Message>, key: nat, k: nat)
    requires LastIsPress(log, key, k)
    ensures key in Server(log)
  {
    var n := |log| - 1;
    if k < n {
      PressShows(log[..n], key, k);
    }
  }

  lemma {:induction false} DownWasPressed(log: seq<Message>, key: nat) returns (k: nat)
    requires key in Server(log)
    ensures LastIsPress(log, key, k)
  {
    var n := |log| - 1;
    if log[n] == Message(key, true) {
      k := n;
    } else {
      k := DownWasPressed(log[..n], key);
      assert forall j :: k < j < n ==> log[..n][j] == log[j];
    }
  }

  /** The server has a key down exactly if the last message about the key was a press. */
  lemma {:induction false} LastMessageWins(log: seq<Message>, key: nat)
    ensures key in Server(log) <==> exists k: nat :: LastIsPress(log, key, k)
  {
    if key in Server(log) {
      var k := DownWasPressed(log, key);
    }
    forall k: nat | LastIsPress(log, key, k)
      ensures key in Server(log)
    {
      PressShows(log, key, k);
    }
  }

  /** The last message about the key is a press that did not fit. */
  ghost predicate PressedInVain(log: seq<Message>, key: nat, k: nat) {
    LastIsPress(log, key, k) && !Kept(log[..k]).Fits(key)
  }

  lemma {:induction false} InVainNext(log: seq<Message>, m: Message, key: nat, k: nat)
    ensures PressedInVain(log + [m], key, k) <==>
              if m.key != key then PressedInVain(log, key, k) else m.down && k == |log| && !Kept(log).Fits(key)
  {
    hide Kept, Keys.Fits;
    var now := log + [m];
    assert now[..|log|] == log;
    if m.key != key && k < |log| {
      assert now[..k] == log[..k];
      assert LastIsPress(log, key, k) <==> LastIsPress(now, key, k) by {
        assert forall j :: k <= j < |log| ==> now[j] == log[j];
      }
    } else if k < |log| {
      assert now[|log|].key == key;
    }
  }

  /** A key is lost, so still down for the server after leaving, exactly if the last message about it
      was a press, and the table had no room for it then. */
  lemma {:induction false} KeyStuck(log: seq<Message>, key: nat)
    ensures key in Kept(log).lost <==> exists k: nat :: PressedInVain(log, key, k)
  {
    hide Keys.Fits, PressedInVain, Kept;
    if log == [] {
      NothingKept(key);
    } else {
      var n := |log| - 1;
      var init, m := log[..n], log[n];
      assert log == init + [m];
      KeyStuck(init, key);
      KeptNext(init, m);
      forall k: nat
        ensures PressedInVain(log, key, k) <==>
                  if m.key != key then PressedInVain(init, key, k) else m.down && k == n && !Kept(init).Fits(key)
      {
        InVainNext(init, m, key, k);
      }
      assert m.key == key && m.down && !Kept(init).Fits(key) ==> PressedInVain(log, key, n);
    }
  }

  lemma {:induction false} NothingKept(key: nat)
    ensures Kept([]) == Keys({}, {}) && forall k: nat :: !PressedInVain([], key, k)
  {
  }
}
