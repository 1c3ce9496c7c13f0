/** The keyboard table: per known key code an `isDown / wentDown / wentUp`
    triple, updated by the key-down and key-up handlers and cleared of its
    one-frame flags at the end of every frame. The browser's event wiring is
    not modelled: an event is just its key code. */
module Keys {

  datatype KeyState = KeyState(isDown: bool, wentDown: bool, wentUp: bool)

  type KeyTable = map<int, KeyState>

  const Space: int := 32
  const ArrowLeft: int := 37
  const ArrowUp: int := 38
  const ArrowRight: int := 39
  const ArrowDown: int := 40

  const KeyCodes: set<int> := {Space, ArrowLeft, ArrowUp, ArrowRight, ArrowDown}

  const Released := KeyState(false, false, false)

  /** The table at start-up: every known key released, no flags. */
  function InitialKeys(): (r: KeyTable)
    ensures r.Keys == KeyCodes
    ensures forall c :: c in r ==> r[c] == Released
  {
    map c | c in KeyCodes :: Released
  }

  /** The key-down handler. */
  function KeyDown(keys: KeyTable, code: int): (r: KeyTable)
    ensures r.Keys == keys.Keys
    ensures forall c :: c in keys && c != code ==> r[c] == keys[c]
    ensures code in keys ==> r[code].isDown && r[code].wentUp == keys[code].wentUp
    ensures code in keys ==> (r[code].wentDown <==> keys[code].wentDown || !keys[code].isDown)
  {
    if code in keys && !keys[code].isDown then
      keys[code := keys[code].(wentDown := true, isDown := true)]
    else
      keys
  }

  /** The key-up handler. */
  function KeyUp(keys: KeyTable, code: int): (r: KeyTable)
    ensures r.Keys == keys.Keys
    ensures forall c :: c in keys && c != code ==> r[c] == keys[c]
    ensures code in keys ==> !r[code].isDown && r[code].wentDown == keys[code].wentDown
    ensures code in keys ==> (r[code].wentUp <==> keys[code].wentUp || keys[code].isDown)
  {
    if code in keys && keys[code].isDown then
      keys[code := keys[code].(wentUp := true, isDown := false)]
    else
      keys
  }

  /** The end-of-frame clear: drops both one-frame flags and keeps `isDown`. */
  function ClearInputs(keys: KeyTable): (r: KeyTable)
    ensures r.Keys == keys.Keys
    ensures forall c :: c in keys ==> r[c] == KeyState(keys[c].isDown, false, false)
  {
    map c | c in keys :: keys[c].(wentDown := false, wentUp := false)
  }

  /** An unknown key code changes nothing. */
  lemma UnknownCodeIgnored(keys: KeyTable, code: int)
    requires code !in keys
    ensures KeyDown(keys, code) == keys && KeyUp(keys, code) == keys
  {
  }

  datatype KeyEvent = Down(code: int) | Up(code: int)

  function Handle(keys: KeyTable, ev: KeyEvent): KeyTable {
    match ev
    case Down(c) => KeyDown(keys, c)
    case Up(c) => KeyUp(keys, c)
  }

  /** The table after the events of `evs`, oldest first. */
  function Apply(keys: KeyTable, evs: seq<KeyEvent>): (r: KeyTable)
    ensures r.Keys == keys.Keys
    decreases |evs|
  {
    if evs == [] then keys else Handle(Apply(keys, evs[..|evs| - 1]), evs[|evs| - 1])
  }

  /** Event `k` of `evs` is a key-down of `c` that found `c` released. */
  predicate PressAt(keys: KeyTable, evs: seq<KeyEvent>, c: int, k: nat)
    requires c in keys && k < |evs|
  {
    evs[k] == Down(c) && !Apply(keys, evs[..k])[c].isDown
  }

  /** Event `k` of `evs` is a key-up of `c` that found `c` held. */
  predicate ReleaseAt(keys: KeyTable, evs: seq<KeyEvent>, c: int, k: nat)
    requires c in keys && k < |evs|
  {
    evs[k] == Up(c) && Apply(keys, evs[..k])[c].isDown
  }

  /** One event sets `wentDown` only by pressing a released key, and
      `wentUp` only by releasing a held one; neither flag is ever cleared. */
  lemma HandleFlags(t: KeyTable, ev: KeyEvent, c: int)
    requires c in t
    ensures c in Handle(t, ev)
    ensures Handle(t, ev)[c].wentDown <==> t[c].wentDown || (ev == Down(c) && !t[c].isDown)
    ensures Handle(t, ev)[c].wentUp <==> t[c].wentUp || (ev == Up(c) && t[c].isDown)
  {
  }

  /** Whether event `k` is a press does not depend on later events. */
  lemma PressAtPrefix(keys: KeyTable, evs: seq<KeyEvent>, c: int, k: nat)
    requires c in keys && k < |evs| - 1
    ensures PressAt(keys, evs, c, k) <==> PressAt(keys, evs[..|evs| - 1], c, k)
  {
    assert evs[..k] == evs[..|evs| - 1][..k];
  }

  /** A key-down that finds the key released sets `wentDown`, and no later
      event of the frame clears it. */
  lemma {:induction false} PressSetsWentDown(keys: KeyTable, evs: seq<KeyEvent>, c: int, k: nat)
    requires c in keys && k < |evs| && PressAt(keys, evs, c, k)
    ensures Apply(keys, evs)[c].wentDown
    decreases |evs|
  {
    var n := |evs| - 1;
    var t := Apply(keys, evs[..n]);
    assert Apply(keys, evs) == Handle(t, evs[n]);
    HandleFlags(t, evs[n], c);
    if k < n {
      PressAtPrefix(keys, evs, c, k);
      PressSetsWentDown(keys, evs[..n], c, k);
    }
  }

  /** Within a frame that starts with `wentDown` clear, a set `wentDown`
      points at a key-down that found the key released. */
  lemma {:induction false} WentDownHasPress(keys: KeyTable, evs: seq<KeyEvent>, c: int) returns (k: nat)
    requires c in keys && !keys[c].wentDown && Apply(keys, evs)[c].wentDown
    ensures k < |evs| && PressAt(keys, evs, c, k)
    decreases |evs|
  {
    var n := |evs| - 1;
    var t := Apply(keys, evs[..n]);
    assert Apply(keys, evs) == Handle(t, evs[n]);
    HandleFlags(t, evs[n], c);
    if t[c].wentDown {
      k := WentDownHasPress(keys, evs[..n], c);
      PressAtPrefix(keys, evs, c, k);
    } else {
      k := n;
    }
  }

  /** Within a frame that starts with `wentDown` clear, it ends up set exactly
      when some key-down found the key released. */
  lemma WentDownRecordsPress(keys: KeyTable, evs: seq<KeyEvent>, c: int)
    requires c in keys && !keys[c].wentDown
    ensures Apply(keys, evs)[c].wentDown <==> exists k: nat :: k < |evs| && PressAt(keys, evs, c, k)
  {
    if Apply(keys, evs)[c].wentDown {
      var k := WentDownHasPress(keys, evs, c);
    }
    if exists k: nat :: k < |evs| && PressAt(keys, evs, c, k) {
      var k: nat :| k < |evs| && PressAt(keys, evs, c, k);
      PressSetsWentDown(keys, evs, c, k);
    }
  }

  /** Whether event `k` is a release does not depend on later events. */
  lemma ReleaseAtPrefix(keys: KeyTable, evs: seq<KeyEvent>, c: int, k: nat)
    requires c in keys && k < |evs| - 1
    ensures ReleaseAt(keys, evs, c, k) <==> ReleaseAt(keys, evs[..|evs| - 1], c, k)
  {
    assert evs[..k] == evs[..|evs| - 1][..k];
  }

  /** A key-up that finds the key held sets `wentUp`, and no later
      event of the frame clears it. */
  lemma {:induction false} ReleaseSetsWentUp(keys: KeyTable, evs: seq<KeyEvent>, c: int, k: nat)
    requires c in keys && k < |evs| && ReleaseAt(keys, evs, c, k)
    ensures Apply(keys, evs)[c].wentUp
    decreases |evs|
  {
    var n := |evs| - 1;
    var t := Apply(keys, evs[..n]);
    assert Apply(keys, evs) == Handle(t, evs[n]);
    HandleFlags(t, evs[n], c);
    if k < n {
      ReleaseAtPrefix(keys, evs, c, k);
      ReleaseSetsWentUp(keys, evs[..n], c, k);
    }
  }

  /** Within a frame that starts with `wentUp` clear, a set `wentUp`
      points at a key-up that found the key held. */
  lemma {:induction false} WentUpHasRelease(keys: KeyTable, evs: seq<KeyEvent>, c: int) returns (k: nat)
    requires c in keys && !keys[c].wentUp && Apply(keys, evs)[c].wentUp
    ensures k < |evs| && ReleaseAt(keys, evs, c, k)
    decreases |evs|
  {
    var n := |evs| - 1;
    var t := Apply(keys, evs[..n]);
    assert Apply(keys, evs) == Handle(t, evs[n]);
    HandleFlags(t, evs[n], c);
    if t[c].wentUp {
      k := WentUpHasRelease(keys, evs[..n], c);
      ReleaseAtPrefix(keys, evs, c, k);
    } else {
      k := n;
    }
  }

  /** Within a frame that starts with `wentUp` clear, it ends up set exactly
      when some key-up found the key held. */
  lemma WentUpRecordsRelease(keys: KeyTable, evs: seq<KeyEvent>, c: int)
    requires c in keys && !keys[c].wentUp
    ensures Apply(keys, evs)[c].wentUp <==> exists k: nat :: k < |evs| && ReleaseAt(keys, evs, c, k)
  {
    if Apply(keys, evs)[c].wentUp {
      var k := WentUpHasRelease(keys, evs, c);
    }
    if exists k: nat :: k < |evs| && ReleaseAt(keys, evs, c, k) {
      var k: nat :| k < |evs| && ReleaseAt(keys, evs, c, k);
      ReleaseSetsWentUp(keys, evs, c, k);
    }
  }

  /** The end-of-frame clear starts the next frame afresh: after it, each
      edge flag records exactly the presses or releases of the next frame's
      events, whatever the previous frame left behind. */
  lemma ClearStartsFreshFrame(keys: KeyTable, evs: seq<KeyEvent>, c: int)
    requires c in keys
    ensures var t := ClearInputs(keys);
      && c in t && t[c].isDown == keys[c].isDown
      && (Apply(t, evs)[c].wentDown <==> exists k: nat :: k < |evs| && PressAt(t, evs, c, k))
      && (Apply(t, evs)[c].wentUp <==> exists k: nat :: k < |evs| && ReleaseAt(t, evs, c, k))
  {
    var t := ClearInputs(keys);
    WentDownRecordsPress(t, evs, c);
    WentUpRecordsRelease(t, evs, c);
  }
}
