/** The x86 keyboard driver of kernel/keyboard.c: the US QWERTY scancode
    table, and the 256-slot ring buffer between the interrupt handler and
    keyboard_getchar. The scancode is a parameter of the handler instead of
    a read of port 0x60; the echo to the screen is left out. */
module Keyboard {
  import opened Word

  const KEYBOARD_BUFFER_SIZE: nat := 256

  /** keyboard_map: set-1 make codes to ASCII; 0 where a key has no
      character; the 38 entries past the listed 90 are 0. */
  const KEYMAP: seq<char> :=
    [
     '\0', '\U{1B}', '1', '2', '3', '4', '5', '6',
     '7', '8', '9', '0', '-', '=', '\U{8}', '\t',
     'q', 'w', 'e', 'r', 't', 'y', 'u', 'i',
     'o', 'p', '[', ']', '\n', '\0', 'a', 's',
     'd', 'f', 'g', 'h', 'j', 'k', 'l', ';',
     '\'', '`', '\0', '\\', 'z', 'x', 'c', 'v',
     'b', 'n', 'm', ',', '.', '/', '\0', '*',
     '\0', ' ', '\0', '\0', '\0', '\0', '\0', '\0',
     '\0', '\0', '\0', '\0', '\0', '\0', '\0', '\0',
     '\0', '\0', '-', '\0', '\0', '\0', '+', '\0',
     '\0', '\0', '\0', '\0', '\0', '\0', '\0', '\0',
     '\0', '\0', '\0', '\0', '\0', '\0', '\0', '\0',
     '\0', '\0', '\0', '\0', '\0', '\0', '\0', '\0',
     '\0', '\0', '\0', '\0', '\0', '\0', '\0', '\0',
     '\0', '\0', '\0', '\0', '\0', '\0', '\0', '\0',
     '\0', '\0', '\0', '\0', '\0', '\0', '\0', '\0'
    ]

  /** The character keyboard_handler queues for a scancode: none for a key
      release (bit 7 set) or a key without a character. */
  function Translate(scancode: byte): (r: Option<char>)
    ensures r.Some? <==> scancode < 0x80 && KEYMAP[scancode as int] != '\0'
    ensures r.Some? ==> r.value == KEYMAP[scancode as int]
  {
    if scancode & 0x80 != 0 then None
    else
      var c := KEYMAP[scancode as int];
      if c != '\0' then Some(c) else None
  }

  /** The characters held between start and end, oldest first. */
  function Queue(buf: seq<char>, start: nat, end: nat): (r: seq<char>)
    requires |buf| == KEYBOARD_BUFFER_SIZE && start < KEYBOARD_BUFFER_SIZE && end < KEYBOARD_BUFFER_SIZE
    ensures |r| == (end - start) % KEYBOARD_BUFFER_SIZE
    ensures |r| < KEYBOARD_BUFFER_SIZE
  {
    if start <= end then buf[start..end] else buf[start..] + buf[..end]
  }

  /** Writing at end and advancing it modulo 256 appends the character,
      when the advanced end does not meet start. */
  lemma QueuePush(buf: seq<char>, start: nat, end: nat, c: char)
    requires |buf| == KEYBOARD_BUFFER_SIZE && start < KEYBOARD_BUFFER_SIZE && end < KEYBOARD_BUFFER_SIZE
    requires (end + 1) % KEYBOARD_BUFFER_SIZE != start
    ensures Queue(buf[end := c], start, (end + 1) % KEYBOARD_BUFFER_SIZE) == Queue(buf, start, end) + [c]
  {
    var q := Queue(buf, start, end);
    var q' := Queue(buf[end := c], start, (end + 1) % KEYBOARD_BUFFER_SIZE);
    assert |q'| == |q| + 1;
    forall k | 0 <= k < |q'|
      ensures q'[k] == (q + [c])[k]
    {
      if start <= end {
        assert q'[k] == buf[end := c][start + k];
      } else if k < KEYBOARD_BUFFER_SIZE - start {
        assert q'[k] == buf[start + k];
      } else {
        assert q'[k] == buf[end := c][k - (KEYBOARD_BUFFER_SIZE - start)];
      }
    }
  }

  /** Reading at start and advancing it modulo 256 takes the oldest
      character off the queue. */
  lemma QueuePop(buf: seq<char>, start: nat, end: nat)
    requires |buf| == KEYBOARD_BUFFER_SIZE && start < KEYBOARD_BUFFER_SIZE && end < KEYBOARD_BUFFER_SIZE
    requires start != end
    ensures Queue(buf, start, end) != [] && Queue(buf, start, end)[0] == buf[start]
    ensures Queue(buf, (start + 1) % KEYBOARD_BUFFER_SIZE, end) == Queue(buf, start, end)[1..]
  {
    var q := Queue(buf, start, end);
    var q' := Queue(buf, (start + 1) % KEYBOARD_BUFFER_SIZE, end);
    assert |q'| == |q| - 1;
    forall k | 0 <= k < |q'|
      ensures q'[k] == q[k + 1]
    {
      if start < end {
        assert q'[k] == buf[start + 1 + k];
      } else if k + 1 < KEYBOARD_BUFFER_SIZE - start {
        assert q'[k] == buf[start + 1 + k];
      } else {
        assert q'[k] == buf[k + 1 - (KEYBOARD_BUFFER_SIZE - start)];
      }
    }
  }

  /** The buffer statics of the x86 driver. */
  class KeyboardBuffer {
    const buffer: array<char>
    var start: nat
    var end: nat

    ghost predicate Valid()
      reads this
    {
      buffer.Length == KEYBOARD_BUFFER_SIZE && start < KEYBOARD_BUFFER_SIZE && end < KEYBOARD_BUFFER_SIZE
    }

    /** The characters waiting, oldest first. */
    ghost function Contents(): seq<char>
      reads this, buffer
      requires Valid()
    {
      Queue(buffer[..], start, end)
    }

    /** The statics at boot: both indices 0, so nothing is waiting. */
    constructor ()
      ensures Valid() && Contents() == [] && fresh(buffer)
    {
      buffer := new char[KEYBOARD_BUFFER_SIZE](_ => '\0');
      start, end := 0, 0;
    }

    /** keyboard_buffer_add: c is appended unless 255 characters are
        already waiting, in which case it is dropped and nothing changes. */
    method Add(c: char)
      requires Valid()
      modifies this, buffer
      ensures Valid() && start == old(start)
      ensures |old(Contents())| < KEYBOARD_BUFFER_SIZE - 1 ==> Contents() == old(Contents()) + [c]
      ensures |old(Contents())| == KEYBOARD_BUFFER_SIZE - 1 ==>
        Contents() == old(Contents()) && end == old(end) && buffer[..] == old(buffer[..])
    {
      var next := (end + 1) % KEYBOARD_BUFFER_SIZE;
      if next != start {
        QueuePush(buffer[..], start, end, c);
        buffer[end] := c;
        end := next;
      }
    }

    /** keyboard_getchar: 0 with nothing changed when nothing is waiting;
        otherwise the oldest character, taken off the queue. */
    method GetChar() returns (c: char)
      requires Valid()
      ensures Valid() && end == old(end)
      modifies this
      ensures old(Contents()) == [] ==> c == '\0' && start == old(start)
      ensures old(Contents()) != [] ==> c == old(Contents())[0] && Contents() == old(Contents())[1..]
    {
      if start == end {
        return '\0';
      }
      QueuePop(buffer[..], start, end);
      c := buffer[start];
      start := (start + 1) % KEYBOARD_BUFFER_SIZE;
    }

    /** keyboard_buffer_has_data. */
    method HasData() returns (b: bool)
      requires Valid()
      ensures b <==> Contents() != []
    {
      b := start != end;
    }

    /** keyboard_handler given the scancode read from port 0x60. */
    method Handler(scancode: byte)
      requires Valid()
      modifies this, buffer
      ensures Valid() && start == old(start)
      ensures Translate(scancode).None? ==> Contents() == old(Contents())
      ensures Translate(scancode).Some? && |old(Contents())| < KEYBOARD_BUFFER_SIZE - 1 ==>
        Contents() == old(Contents()) + [Translate(scancode).value]
      ensures Translate(scancode).Some? && |old(Contents())| == KEYBOARD_BUFFER_SIZE - 1 ==>
        Contents() == old(Contents())
    {
      if scancode & 0x80 == 0 {
        var c := KEYMAP[scancode as int];
        if c != '\0' {
          Add(c);
        }
      }
    }
  }
}
