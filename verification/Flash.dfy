/** The double-buffered flash image of fat16/vfs.c as a crash-recovery protocol. */
module Flash {
  // The flash holds two slots.  A slot is one header sector and 1023 payload sectors; a write that is
  // cut short leaves a prefix of whole new sectors in front of the old ones.

  import opened Bytes

  const SECTOR_SIZE := 512
  const FLASH_SIZE := 512 * 1024
  const SECTORS := FLASH_SIZE / SECTOR_SIZE
  const PAYLOAD_SIZE := FLASH_SIZE - SECTOR_SIZE
  const MAGIC := 0xF416
  const UINT64 := 0x1_0000_0000_0000_0000

  /** The file-system image behind the header: boot sector, FAT, root directory and data. */
  type Payload = p: seq<Byte> | |p| == PAYLOAD_SIZE witness seq(PAYLOAD_SIZE, _ => 0)

  /** The checksum; the protocol only compares its values. */
  type Crc = Payload -> nat

  datatype Header = Header(magic: nat, crc32: nat, sequence: nat)

  datatype Slot = Slot(header: Header, payload: Payload)

  predicate HasMagic(s: Slot) { s.header.magic == MAGIC }

  predicate Intact(crc: Crc, s: Slot) { crc(s.payload) == s.header.crc32 }

  /** The slot after the first `k` sectors of `now` have reached the flash, over `was`. */
  function WriteSectors(was: Slot, now: Slot, k: nat): Slot
    requires k <= SECTORS
  {
    if k == 0 then was
    else Slot(now.header, now.payload[..(k - 1) * SECTOR_SIZE] + was.payload[(k - 1) * SECTOR_SIZE..])
  }

  // ---------------------------------------------------------------- states and steps

  /** The two slots on the flash, and what `struct FAT16VFS` keeps in memory. */
  datatype State = State(
    slots: seq<Slot>, attached: bool, payload: Payload, dirty: bool, activeBuffer: nat, sequence: nat)
  {
    predicate WellFormed() {
      |slots| == 2 && activeBuffer < 2
    }

    function Active(): Slot
      requires WellFormed()
    {
      slots[activeBuffer]
    }
  }

  /**
   What happens to the system: the file system changes in memory; `vfs_flush` runs, with
   `sectors` of its write reaching the flash and `fwrite` reporting `full` or not; the
   machine restarts and `vfs_mount` runs.  A crash during a flush is a flush that is not
   full, followed by a mount.
   */
  datatype Event = Modify(payload: Payload) | Flush(sectors: nat, full: bool) | Mount

  /** The slot that the two headers alone point to. */
  function Preferred(slots: seq<Slot>): int
    requires |slots| == 2
  {
    if HasMagic(slots[0]) && HasMagic(slots[1]) then
      if slots[0].header.sequence > slots[1].header.sequence then 0 else 1
    else if HasMagic(slots[0]) then 0
    else if HasMagic(slots[1]) then 1
    else -1
  }

  /** The slot `vfs_mount` loads, or -1 when it starts over with an empty file system. */
  function Selected(crc: Crc, slots: seq<Slot>): (i: int)
    requires |slots| == 2
    ensures -1 <= i < 2
  {
    var first := Preferred(slots);
    if first == -1 then -1
    else if Intact(crc, slots[first]) then first
    else if Intact(crc, slots[1 - first]) then 1 - first
    else -1
  }

  function MountStep(crc: Crc, blank: Payload, s: State): (t: State)
    requires s.WellFormed()
    ensures t.WellFormed() && t.slots == s.slots
  {
    var i := Selected(crc, s.slots);
    if i == -1 then State(s.slots, false, blank, false, 0, 0)
    else State(s.slots, true, s.slots[i].payload, false, i, s.slots[i].header.sequence)
  }

  /** The image a flush sends to the inactive slot. */
  function Outgoing(crc: Crc, s: State): Slot {
    Slot(Header(MAGIC, crc(s.payload), (s.sequence + 1) % UINT64), s.payload)
  }

  /** What the inactive slot holds when the write ends. */
  function Landed(crc: Crc, s: State, sectors: nat): Slot
    requires s.WellFormed() && sectors <= SECTORS
  {
    WriteSectors(s.slots[1 - s.activeBuffer], Outgoing(crc, s), sectors)
  }

  predicate Reports(crc: Crc, s: State, sectors: nat, full: bool)
    requires s.WellFormed() && sectors <= SECTORS
  {
    !s.dirty || !s.attached || (full && crc(Landed(crc, s, sectors).payload) == crc(s.payload))
  }

  function FlushStep(crc: Crc, s: State, sectors: nat, full: bool): (t: State)
    requires s.WellFormed() && sectors <= SECTORS
    ensures t.WellFormed()
  {
    if !s.dirty || !s.attached then s
    else
      var written := s.(slots := s.slots[1 - s.activeBuffer := Landed(crc, s, sectors)], sequence := (s.sequence + 1) % UINT64);
      if Reports(crc, s, sectors, full) then written.(activeBuffer := 1 - s.activeBuffer, dirty := false) else written
  }

  function Step(crc: Crc, blank: Payload, s: State, e: Event): (t: State)
    requires s.WellFormed() && (e.Flush? ==> e.sectors <= SECTORS)
    ensures t.WellFormed()
  {
    match e
    case Modify(p) => s.(payload := p, dirty := true)
    case Flush(k, full) => FlushStep(crc, s, k, full)
    case Mount => MountStep(crc, blank, s)
  }

  // ---------------------------------------------------------------- the implementation

  class Vfs {
    const crc: Crc
    const blank: Payload
    const flash: array<Slot>
    var attached: bool
    var payload: Payload
    var dirty: bool
    var activeBuffer: nat
    var sequence: nat

    ghost predicate Valid()
      reads this
    {
      flash.Length == 2 && activeBuffer < 2
    }

    ghost function View(): State
      requires Valid()
      reads this, flash
    {
      State(flash[..], attached, payload, dirty, activeBuffer, sequence)
    }

    constructor (flash: array<Slot>, crc: Crc, blank: Payload)
      requires flash.Length == 2
      ensures Valid() && this.flash == flash && this.crc == crc && this.blank == blank
      ensures View() == State(flash[..], false, blank, false, 0, 0)
    {
      this.flash, this.crc, this.blank := flash, crc, blank;
      attached, payload, dirty, activeBuffer, sequence := false, blank, false, 0, 0;
    }

    method Init()
      requires Valid()
      modifies this
      ensures Valid() && View() == State(old(flash[..]), false, blank, false, 0, 0)
    {
      payload := blank;
      dirty := false;
      activeBuffer := 0;
      sequence := 0;
      attached := false;
    }

    /** Any operation that changes the file system in memory. */
    method Change(p: Payload)
      requires Valid()
      modifies this`payload, this`dirty
      ensures Valid() && View() == Step(crc, blank, old(View()), Modify(p))
    {
      payload := p;
      dirty := true;
    }

    method Mount()
      requires Valid()
      modifies this
      ensures Valid() && View() == Step(crc, blank, old(View()), Event.Mount)
    {
      attached := true;
      var selected := -1;
      if flash[0].header.magic == MAGIC && flash[1].header.magic == MAGIC {
        selected := if flash[0].header.sequence > flash[1].header.sequence then 0 else 1;
      } else if flash[0].header.magic == MAGIC {
        selected := 0;
      } else if flash[1].header.magic == MAGIC {
        selected := 1;
      } else {
        Init();
        return;
      }
      var buffer := flash[selected].payload;
      if crc(buffer) != flash[selected].header.crc32 {
        selected := if selected != 0 then 0 else 1;
        buffer := flash[selected].payload;
        if crc(buffer) != flash[selected].header.crc32 {
          Init();
          return;
        }
      }
      payload := buffer;
      activeBuffer := selected;
      sequence := flash[selected].header.sequence;
      dirty := false;
    }

    /** `sectors` and `full` are what the medium does to the one `fwrite`. */
    method Flush(sectors: nat, full: bool) returns (code: int)
      requires Valid() && sectors <= SECTORS
      modifies this, flash
      ensures Valid() && View() == Step(crc, blank, old(View()), Event.Flush(sectors, full))
      ensures code == if Reports(crc, old(View()), sectors, full) then 0 else -1
    {
      if !dirty || !attached {
        return 0;
      }
      var buffer := payload;
      var sum := crc(buffer);
      var inactiveBuffer := if activeBuffer != 0 then 0 else 1;
      sequence := (sequence + 1) % UINT64;
      var image := Slot(Header(MAGIC, sum, sequence), buffer);
      flash[inactiveBuffer] := WriteSectors(flash[inactiveBuffer], image, sectors);
      if !full {
        return -1;
      }
      var verify := flash[inactiveBuffer].payload;
      if crc(verify) != sum {
        return -1;
      }
      activeBuffer := inactiveBuffer;
      dirty := false;
      return 0;
    }
  }

  // ---------------------------------------------------------------- what recovery may return

  /**
   The assumptions on one flush: a torn payload does not collide with the checksum of the
   intended one, a write reported as full got at least its header sector onto the flash, and
   the 64-bit sequence number does not wrap.
   */
  ghost predicate SoundFlush(crc: Crc, s: State, sectors: nat, full: bool)
    requires s.WellFormed() && sectors <= SECTORS
  {
    s.dirty && s.attached ==>
      && (sectors > 0 && crc(Landed(crc, s, sectors).payload) == crc(s.payload) ==> Landed(crc, s, sectors).payload == s.payload)
      && (full ==> sectors > 0)
      && s.sequence + 1 < UINT64
  }

  ghost predicate SoundRun(crc: Crc, blank: Payload, s: State, events: seq<Event>)
    requires s.WellFormed()
    decreases |events|
  {
    events == [] ||
    (&& (events[0].Flush? ==> events[0].sectors <= SECTORS && SoundFlush(crc, s, events[0].sectors, events[0].full))
     && SoundRun(crc, blank, Step(crc, blank, s, events[0]), events[1..]))
  }

  ghost function Run(crc: Crc, blank: Payload, s: State, events: seq<Event>): (t: State)
    requires s.WellFormed() && SoundRun(crc, blank, s, events)
    ensures t.WellFormed()
    decreases |events|
  {
    if events == [] then s else Run(crc, blank, Step(crc, blank, s, events[0]), events[1..])
  }

  /**
   The payloads that may legitimately come back after `events`: the one of the last flush
   that reported success, or of any flush attempted since.  A mount settles the choice: what
   it loaded is from then on treated like a payload that was flushed with success.
   */
  ghost function Acceptable(crc: Crc, blank: Payload, s: State, events: seq<Event>, before: set<Payload>): set<Payload>
    requires s.WellFormed() && SoundRun(crc, blank, s, events)
    decreases |events|
  {
    if events == [] then before
    else
      var t := Step(crc, blank, s, events[0]);
      var now :=
        match events[0]
        case Modify(_) => before
        case Flush(k, full) => if Reports(crc, s, k, full) then {s.payload} else before + {s.payload}
        case Mount => {t.payload};
      Acceptable(crc, blank, t, events[1..], now)
  }

  /** The slot in use is intact, and both it and whatever a mount would load now are acceptable. */
  ghost predicate Recoverable(crc: Crc, s: State, acceptable: set<Payload>) {
    && s.WellFormed() && s.attached
    && HasMagic(s.Active()) && Intact(crc, s.Active()) && s.Active().header.sequence <= s.sequence
    && s.Active().payload in acceptable
    && Selected(crc, s.slots) != -1 && s.slots[Selected(crc, s.slots)].payload in acceptable
    && (!s.dirty ==> Selected(crc, s.slots) == s.activeBuffer && s.payload == s.Active().payload)
  }

  lemma MountKeepsRecoverable(crc: Crc, blank: Payload, s: State, acceptable: set<Payload>)
    requires Recoverable(crc, s, acceptable)
    ensures var t := MountStep(crc, blank, s); t.payload in acceptable && Recoverable(crc, t, {t.payload})
  {
  }

  lemma FlushKeepsRecoverable(crc: Crc, s: State, acceptable: set<Payload>, sectors: nat, full: bool)
    requires Recoverable(crc, s, acceptable) && sectors <= SECTORS && SoundFlush(crc, s, sectors, full)
    ensures var now := if Reports(crc, s, sectors, full) then {s.payload} else acceptable + {s.payload};
            Recoverable(crc, FlushStep(crc, s, sectors, full), now)
  {
    if s.dirty {
      var t := FlushStep(crc, s, sectors, full);
      var landed := Landed(crc, s, sectors);
      assert t.slots[s.activeBuffer] == s.Active() && t.slots[1 - s.activeBuffer] == landed;
      if sectors > 0 {
        assert Preferred(t.slots) == 1 - s.activeBuffer;
      } else {
        assert t.slots == s.slots;
      }
    }
  }

  /** Every reachable state stays recoverable. */
  lemma {:induction false} RunKeepsRecoverable(crc: Crc, blank: Payload, s: State, events: seq<Event>, acceptable: set<Payload>)
    requires Recoverable(crc, s, acceptable) && SoundRun(crc, blank, s, events)
    ensures Recoverable(crc, Run(crc, blank, s, events), Acceptable(crc, blank, s, events, acceptable))
    decreases |events|
  {
    if events != [] {
      var e, t := events[0], Step(crc, blank, s, events[0]);
      match e {
        case Modify(_) => RunKeepsRecoverable(crc, blank, t, events[1..], acceptable);
        case Flush(k, full) =>
          FlushKeepsRecoverable(crc, s, acceptable, k, full);
          RunKeepsRecoverable(crc, blank, t, events[1..], if Reports(crc, s, k, full) then {s.payload} else acceptable + {s.payload});
        case Mount =>
          MountKeepsRecoverable(crc, blank, s, acceptable);
          RunKeepsRecoverable(crc, blank, t, events[1..], {t.payload});
      }
    }
  }

  ghost predicate HasValidSlot(crc: Crc, s: State) {
    s.WellFormed() && exists i :: 0 <= i < 2 && HasMagic(s.slots[i]) && Intact(crc, s.slots[i])
  }

  /** The first mount of a flash with a valid slot. */
  lemma FirstMount(crc: Crc, blank: Payload, s: State)
    requires HasValidSlot(crc, s)
    ensures var t := MountStep(crc, blank, s); Recoverable(crc, t, {t.payload})
  {
  }

  /**
   Crash safety over whole runs.  Mount a flash that has a valid slot, then let anything
   happen: wherever the run is cut off, the next mount loads exactly the payload of the last
   flush that reported success or of a flush attempted after it.
   */
  lemma MountRecovers(crc: Crc, blank: Payload, s: State, events: seq<Event>)
    requires HasValidSlot(crc, s) && SoundRun(crc, blank, MountStep(crc, blank, s), events)
    ensures var first := MountStep(crc, blank, s);
            var again := MountStep(crc, blank, Run(crc, blank, first, events));
            again.attached && again.payload in Acceptable(crc, blank, first, events, {first.payload})
  {
    var first := MountStep(crc, blank, s);
    FirstMount(crc, blank, s);
    RunKeepsRecoverable(crc, blank, first, events, {first.payload});
    MountKeepsRecoverable(crc, blank, Run(crc, blank, first, events), Acceptable(crc, blank, first, events, {first.payload}));
  }

  /** Right after a flush that reports success, a mount brings back what is in memory. */
  lemma SuccessIsDurable(crc: Crc, blank: Payload, s: State, events: seq<Event>, sectors: nat, full: bool)
    requires HasValidSlot(crc, s) && SoundRun(crc, blank, MountStep(crc, blank, s), events)
    requires var u := Run(crc, blank, MountStep(crc, blank, s), events);
      sectors <= SECTORS && SoundFlush(crc, u, sectors, full) && Reports(crc, u, sectors, full)
    ensures var u := Run(crc, blank, MountStep(crc, blank, s), events);
      MountStep(crc, blank, FlushStep(crc, u, sectors, full)).payload == u.payload
  {
    var first := MountStep(crc, blank, s);
    var u := Run(crc, blank, first, events);
    var acceptable := Acceptable(crc, blank, first, events, {first.payload});
    FirstMount(crc, blank, s);
    RunKeepsRecoverable(crc, blank, first, events, {first.payload});
    FlushKeepsRecoverable(crc, u, acceptable, sectors, full);
    MountKeepsRecoverable(crc, blank, FlushStep(crc, u, sectors, full), {u.payload});
  }

  // ---------------------------------------------------------------- the assumptions are the exact ones

  /** The assumptions that have nothing to do with the checksum: on the medium, and on the sequence number. */
  ghost predicate HonestRun(crc: Crc, blank: Payload, s: State, events: seq<Event>)
    requires s.WellFormed()
    decreases |events|
  {
    events == [] ||
    (&& (events[0].Flush? ==>
           && events[0].sectors <= SECTORS
           && (s.dirty && s.attached ==> (events[0].full ==> events[0].sectors > 0) && s.sequence + 1 < UINT64))
     && HonestRun(crc, blank, Step(crc, blank, s, events[0]), events[1..]))
  }

  /** With a checksum without collisions only those assumptions are left, over whole runs. */
  lemma {:induction false} CollisionFreeRunIsSound(crc: Crc, blank: Payload, s: State, events: seq<Event>)
    requires s.WellFormed() && HonestRun(crc, blank, s, events)
    requires forall p, q :: crc(p) == crc(q) ==> p == q
    ensures SoundRun(crc, blank, s, events)
    decreases |events|
  {
    if events != [] {
      CollisionFreeRunIsSound(crc, blank, Step(crc, blank, s, events[0]), events[1..]);
    }
  }

  /**
   After a flush that is cut off behind its header, a mount avoids a mixture exactly when
   the tear is detected.
   */
  lemma TornFlushIsSafeExactlyWhenDetected(crc: Crc, blank: Payload, s: State, acceptable: set<Payload>, sectors: nat)
    requires Recoverable(crc, s, acceptable) && s.dirty && 0 < sectors <= SECTORS && s.sequence + 1 < UINT64
    ensures var landed := Landed(crc, s, sectors).payload;
            var loaded := MountStep(crc, blank, FlushStep(crc, s, sectors, false)).payload;
      loaded in {s.Active().payload, s.payload} <==>
        (crc(landed) == crc(s.payload) ==> landed in {s.Active().payload, s.payload})
  {
    var t := FlushStep(crc, s, sectors, false);
    assert t.slots[s.activeBuffer] == s.Active() && t.slots[1 - s.activeBuffer] == Landed(crc, s, sectors);
    assert Preferred(t.slots) == 1 - s.activeBuffer;
  }

  /**
   The read-back compares the payload only.  A write that is reported full although not
   even its header arrived passes it exactly when the slot already held that payload, and the
   flush is then reported as a success although the next mount loads what it would have loaded
   without it.
   */
  lemma LostHeaderIsMissedExactlyOnEqualChecksums(crc: Crc, blank: Payload, s: State)
    requires s.WellFormed() && s.dirty && s.attached
    ensures Reports(crc, s, 0, true) <==> crc(s.slots[1 - s.activeBuffer].payload) == crc(s.payload)
    ensures MountStep(crc, blank, FlushStep(crc, s, 0, true)) == MountStep(crc, blank, s)
  {
    assert s.slots[1 - s.activeBuffer := s.slots[1 - s.activeBuffer]] == s.slots;
  }

  /**
   The sequence number decides.  After a complete flush a mount prefers the new slot exactly
   when the number it was given exceeds the old one, or equals it in slot 1: the last number
   before the wrap breaks this.
   */
  lemma CompleteFlushIsPreferredExactlyByNumber(crc: Crc, s: State, acceptable: set<Payload>)
    requires Recoverable(crc, s, acceptable) && s.dirty
    ensures var next := (s.sequence + 1) % UINT64;
      Selected(crc, FlushStep(crc, s, SECTORS, true).slots) == 1 - s.activeBuffer <==>
        next > s.Active().header.sequence || (next == s.Active().header.sequence && s.activeBuffer == 0)
  {
    var t := FlushStep(crc, s, SECTORS, true);
    var landed := Landed(crc, s, SECTORS);
    assert landed.payload == s.payload;
    assert t.slots[s.activeBuffer] == s.Active() && t.slots[1 - s.activeBuffer] == landed;
  }

  lemma WrapLosesFlush(crc: Crc, blank: Payload, s: State, acceptable: set<Payload>)
    requires Recoverable(crc, s, acceptable) && s.dirty
    requires s.Active().header.sequence == s.sequence == 0xFFFF_FFFF_FFFF_FFFF
    ensures Reports(crc, s, SECTORS, true)
    ensures MountStep(crc, blank, FlushStep(crc, s, SECTORS, true)).payload == s.Active().payload
  {
    var t := FlushStep(crc, s, SECTORS, true);
    var landed := Landed(crc, s, SECTORS);
    assert landed.payload == s.payload;
    assert t.slots[s.activeBuffer] == s.Active() && t.slots[1 - s.activeBuffer] == landed;
  }

  // ---------------------------------------------------------------- what a flush leaves to do

  /** After a flush that reported success, and after a mount, there is nothing left to flush. */
  lemma NothingLeftToFlush(crc: Crc, blank: Payload, s: State, k: nat, full: bool, j: nat, again: bool)
    requires s.WellFormed() && k <= SECTORS && j <= SECTORS
    ensures Reports(crc, s, k, full) ==>
              var t := FlushStep(crc, s, k, full); FlushStep(crc, t, j, again) == t && Reports(crc, t, j, again)
    ensures var t := MountStep(crc, blank, s); FlushStep(crc, t, j, again) == t && Reports(crc, t, j, again)
  {
  }

  /** A flush that failed can be made up for: a full one after it succeeds, two numbers further on, and is what a mount loads. */
  lemma RetrySucceeds(crc: Crc, blank: Payload, s: State, k: nat, full: bool)
    requires s.WellFormed() && k <= SECTORS && !Reports(crc, s, k, full)
    requires HasMagic(s.Active()) && s.Active().header.sequence <= s.sequence < 0xFFFF_FFFF_FFFF_FFFE
    ensures var t := FlushStep(crc, s, k, full);
            var u := FlushStep(crc, t, SECTORS, true);
      && Reports(crc, t, SECTORS, true)
      && u.slots[1 - s.activeBuffer].header == Header(0xF416, crc(s.payload), s.sequence + 2)
      && u.slots[s.activeBuffer] == s.Active()
      && MountStep(crc, blank, u) == u.(dirty := false)
  {
    var t := FlushStep(crc, s, k, full);
    assert t.Active() == s.Active();
    var u := FlushStep(crc, t, SECTORS, true);
    assert Landed(crc, t, SECTORS).payload == s.payload;
    assert u.slots[s.activeBuffer] == s.Active() && u.slots[1 - s.activeBuffer] == Landed(crc, t, SECTORS);
  }

  /** A mount loads something exactly when one slot has the magic and one, be it the other, has a matching checksum. */
  lemma LoadsExactly(crc: Crc, blank: Payload, s: State)
    requires s.WellFormed()
    ensures MountStep(crc, blank, s).attached <==>
              && (s.slots[0].header.magic == 0xF416 || s.slots[1].header.magic == 0xF416)
              && (crc(s.slots[0].payload) == s.slots[0].header.crc32 || crc(s.slots[1].payload) == s.slots[1].header.crc32)
  {
  }

  /** A flash on which a mount finds nothing to load is never written again, and every flush reports success. */
  lemma {:induction false} FreshFlashIsNeverWritten(crc: Crc, blank: Payload, s: State, events: seq<Event>)
    requires s.WellFormed() && !s.attached && Selected(crc, s.slots) == -1 && SoundRun(crc, blank, s, events)
    ensures var t := Run(crc, blank, s, events);
      && t.slots == s.slots && !t.attached
      && forall k, full :: 0 <= k <= SECTORS ==> Reports(crc, t, k, full)
    decreases |events|
  {
    if events != [] {
      FreshFlashIsNeverWritten(crc, blank, Step(crc, blank, s, events[0]), events[1..]);
    }
  }
}
