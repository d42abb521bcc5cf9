/** The PS/2 mouse driver of kernel/mouse.c: the interrupt handler that
    gathers the three bytes of a movement packet and moves the pointer
    over the 320x200 graphics screen. The controller's status and data
    bytes are parameters of the handler instead of reads of ports 0x64
    and 0x60. */
module Mouse {
  import opened Word
  import Graphics

  /** The status bits that mark a byte from the auxiliary device: output
      buffer full (bit 0) and auxiliary data (bit 5). */
  predicate Accepted(status: byte) {
    status & 0x01 != 0 && status & 0x20 != 0
  }

  /** The two overflow bits of a packet's first byte. */
  const OVERFLOW: byte := 0xC0

  /** A coordinate after the handler's two bound checks against a screen
      dimension of n pixels. */
  function Clamp(v: int, n: nat): (r: int)
    requires 0 < n
    ensures 0 <= r < n
    ensures 0 <= v < n ==> r == v
    ensures v < 0 ==> r == 0
    ensures n <= v ==> r == n - 1
  {
    var low := if v < 0 then 0 else v;
    if low >= n then n - 1 else low
  }

  /** mouse_x, mouse_y and mouse_buttons. */
  datatype Pointer = Pointer(x: int, y: int, buttons: nat)

  predicate OnScreen(p: Pointer) {
    0 <= p.x < Graphics.VGA_WIDTH && 0 <= p.y < Graphics.VGA_HEIGHT && p.buttons < 8
  }

  /** The effect of a complete packet (flags, dx, dy): a packet with an
      overflow bit is dropped; otherwise the pointer moves by the signed
      deltas, up on the screen for a positive dy, stops at the screen's
      edges, and takes the three button bits of the flags. */
  function Packet(p: Pointer, flags: byte, dx: byte, dy: byte): (r: Pointer)
    ensures flags & OVERFLOW != 0 ==> r == p
    ensures flags & OVERFLOW == 0 ==> OnScreen(r) && r.buttons == (flags & 0x07) as int
    ensures OnScreen(p) ==> OnScreen(r)
    ensures flags & OVERFLOW == 0 && OnScreen(Pointer(p.x + SignedByte(dx), p.y - SignedByte(dy), 0)) ==>
      r.x == p.x + SignedByte(dx) && r.y == p.y - SignedByte(dy)
    ensures OnScreen(p) ==>
      && (SignedByte(dx) >= 0 ==> p.x <= r.x <= p.x + SignedByte(dx))
      && (SignedByte(dx) <= 0 ==> p.x + SignedByte(dx) <= r.x <= p.x)
      && (SignedByte(dy) >= 0 ==> p.y - SignedByte(dy) <= r.y <= p.y)
      && (SignedByte(dy) <= 0 ==> p.y <= r.y <= p.y - SignedByte(dy))
  {
    if flags & OVERFLOW != 0 then p
    else
      Pointer(Clamp(p.x + SignedByte(dx), Graphics.VGA_WIDTH),
              Clamp(p.y - SignedByte(dy), Graphics.VGA_HEIGHT),
              (flags & 0x07) as int)
  }

  /** The pointer after a run of packets, each given as its three bytes. */
  function Track(p: Pointer, packets: seq<(byte, byte, byte)>): Pointer {
    if packets == [] then p
    else
      var last := packets[|packets| - 1];
      Packet(Track(p, packets[..|packets| - 1]), last.0, last.1, last.2)
  }

  /** However many packets arrive, the pointer never leaves the screen. */
  lemma {:induction false} TrackOnScreen(p: Pointer, packets: seq<(byte, byte, byte)>)
    requires OnScreen(p)
    ensures OnScreen(Track(p, packets))
  {
    if packets != [] {
      TrackOnScreen(p, packets[..|packets| - 1]);
    }
  }

  /** A packet without movement leaves the position where it was and only
      sets the buttons. */
  lemma StillPacket(p: Pointer, flags: byte)
    requires OnScreen(p) && flags & OVERFLOW == 0
    ensures Packet(p, flags, 0, 0) == Pointer(p.x, p.y, (flags & 0x07) as int)
  {
  }

  /** The driver's statics: mouse_cycle, mouse_byte and the pointer. */
  class Mouse {
    var cycle: nat
    var bytes: array<byte>
    var x: int
    var y: int
    var buttons: nat

    ghost predicate Valid()
      reads this
    {
      bytes.Length == 3 && cycle < 3 && OnScreen(Pointer(x, y, buttons))
    }

    function Position(): Pointer
      reads this
    {
      Pointer(x, y, buttons)
    }

    /** The statics start at zero. */
    constructor ()
      ensures Valid() && fresh(bytes)
      ensures cycle == 0 && bytes[..] == [0, 0, 0] && Position() == Pointer(0, 0, 0)
    {
      cycle, x, y, buttons := 0, 0, 0, 0;
      bytes := new byte[3](_ => 0);
    }

    /** mouse_init's last steps: the pointer starts at the centre of the
        screen and is drawn there; the controller commands before them
        are left out. */
    method Init(screen: Graphics.Screen)
      requires Valid() && screen.Valid()
      modifies this, screen, screen.back, screen.cursorBg
      ensures Valid() && bytes == old(bytes) && cycle == old(cycle)
      ensures Position() == Pointer(Graphics.VGA_WIDTH / 2, Graphics.VGA_HEIGHT / 2, old(buttons))
      ensures x == 160 && y == 100
      ensures screen.Valid() && screen.cursorEnabled && screen.cursorX == x && screen.cursorY == y
    {
      x := Graphics.VGA_WIDTH / 2;
      y := Graphics.VGA_HEIGHT / 2;
      screen.DrawCursor(x, y);
    }

    /** mouse_handler for one interrupt, given the controller's status and
        the byte it holds: a byte from the mouse is stored at the current
        cycle position; the third one completes a packet, which resets
        the cycle, moves the pointer and, unless the packet overflowed,
        redraws it. Any other interrupt changes nothing. */
    method Handle(status: byte, data: byte, screen: Graphics.Screen)
      requires Valid() && screen.Valid()
      modifies this, bytes, screen, screen.back, screen.cursorBg
      ensures Valid() && bytes == old(bytes) && screen.Valid()
      ensures screen.back == old(screen.back) && screen.cursorBg == old(screen.cursorBg)
      ensures if Accepted(status) && old(cycle) == 2 && bytes[0] & OVERFLOW == 0
        then screen.cursorEnabled && screen.cursorX == x && screen.cursorY == y
        else unchanged(screen) && screen.back[..] == old(screen.back[..]) && screen.cursorBg[..] == old(screen.cursorBg[..])
      ensures !Accepted(status) ==>
        cycle == old(cycle) && Position() == old(Position()) && bytes[..] == old(bytes[..])
      ensures Accepted(status) ==> bytes[..] == old(bytes[..])[old(cycle) := data]
      ensures Accepted(status) && old(cycle) < 2 ==>
        cycle == old(cycle) + 1 && Position() == old(Position())
      ensures Accepted(status) && old(cycle) == 2 ==>
        cycle == 0 && Position() == Packet(old(Position()), bytes[0], bytes[1], bytes[2])
    {
      if status & 0x01 != 0 && status & 0x20 != 0 {
        bytes[cycle] := data;
        cycle := cycle + 1;
        if cycle == 3 {
          cycle := 0;
          Apply(bytes[0], bytes[1], bytes[2], screen);
        }
      }
    }

    /** The end of mouse_handler once a packet is complete. */
    method Apply(flags: byte, b1: byte, b2: byte, screen: Graphics.Screen)
      requires Valid() && screen.Valid()
      modifies this, screen, screen.back, screen.cursorBg
      ensures Valid() && bytes == old(bytes) && cycle == old(cycle) && screen.Valid()
      ensures Position() == Packet(old(Position()), flags, b1, b2)
      ensures screen.back == old(screen.back) && screen.cursorBg == old(screen.cursorBg)
      ensures if flags & OVERFLOW == 0
        then screen.cursorEnabled && screen.cursorX == x && screen.cursorY == y
        else unchanged(screen) && screen.back[..] == old(screen.back[..]) && screen.cursorBg[..] == old(screen.cursorBg[..])
    {
      var dx := SignedByte(b1);
      var dy := SignedByte(b2);
      if flags & OVERFLOW != 0 {
        return;
      }
      Move(dx, dy);
      buttons := (flags & 0x07) as int;
      screen.DrawCursor(x, y);
    }

    /** The moves and the bound checks of mouse_handler. */
    method Move(dx: int, dy: int)
      requires Valid()
      modifies this
      ensures Valid() && bytes == old(bytes) && cycle == old(cycle) && buttons == old(buttons)
      ensures x == Clamp(old(x) + dx, Graphics.VGA_WIDTH) && y == Clamp(old(y) - dy, Graphics.VGA_HEIGHT)
    {
      x := x + dx;
      y := y - dy;
      if x < 0 {
        x := 0;
      }
      if x >= Graphics.VGA_WIDTH {
        x := Graphics.VGA_WIDTH - 1;
      }
      if y < 0 {
        y := 0;
      }
      if y >= Graphics.VGA_HEIGHT {
        y := Graphics.VGA_HEIGHT - 1;
      }
    }
  }
}
