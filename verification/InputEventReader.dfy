/** The circular reader of kernel input events
    (common/hardware/libsensors/InputEventReader.cpp). Its array has twice the capacity: a read
    may run past mBufferEnd, and what spilled over is then copied to the front. */
module InputEventReader {
  /** struct input_event; `kind` is its `type` field. */
  datatype InputEvent = InputEvent(sec: int, usec: int, kind: int, code: int, value: int)

  /** What read(2) on the event device comes back with: an error, a byte count that is not a whole
      number of events (having scribbled over the space offered), or whole events. */
  datatype ReadResult =
    | Failed(errno: int)
    | Partial(scribble: seq<InputEvent>)
    | Events(events: seq<InputEvent>)

  const EINVAL := 22

  predicate FitsIn(result: ReadResult, space: nat) {
    match result
    case Failed(errno) => errno > 0
    case Partial(scribble) => |scribble| <= space
    case Events(events) => |events| <= space
  }

  /** Array position of the k-th unread event. */
  function Position(curr: nat, k: nat, capacity: nat): nat {
    if curr + k < capacity then curr + k else curr + k - capacity
  }

  class InputEventCircularReader {
    const capacity: nat             // mBufferEnd - mBuffer
    const buffer: array<InputEvent> // mBuffer
    var head: nat                   // mHead - mBuffer
    var curr: nat                   // mCurr - mBuffer
    var freeSpace: nat

    ghost var contents: seq<InputEvent>  // the unread events, oldest first

    /** The reader is a queue of at most `capacity` events. */
    ghost predicate Valid()
      reads this, buffer
    {
      && buffer.Length == 2 * capacity
      && freeSpace + |contents| == capacity
      && (curr < capacity || curr == 0)
      && head <= capacity
      && (head == Position(curr, |contents|, capacity)
          || (head == capacity && Position(curr, |contents|, capacity) == 0))
      && (forall k :: 0 <= k < |contents| ==> buffer[Position(curr, k, capacity)] == contents[k])
    }

    constructor (numEvents: nat)
      ensures Valid() && fresh(buffer) && capacity == numEvents && contents == []
    {
      capacity := numEvents;
      buffer := new InputEvent[numEvents * 2];
      head, curr, freeSpace, contents := 0, 0, numEvents, [];
    }

    /** read(2) into the space behind mHead; every write stays inside the array. */
    method Receive(events: seq<InputEvent>)
      requires Valid() && |events| <= freeSpace
      modifies buffer
      ensures Valid()
      ensures buffer[head..head + |events|] == events
    {
      forall i | 0 <= i < |events| { buffer[head + i] := events[i]; }
    }

    /** fill: appends what was read, in order, leaving the unread events alone. */
    method Fill(result: ReadResult) returns (r: int)
      requires Valid() && (freeSpace > 0 ==> FitsIn(result, freeSpace))
      modifies this`head, this`freeSpace, this`contents, buffer
      ensures Valid()
      ensures contents == if old(freeSpace) > 0 && result.Events? then old(contents) + result.events else old(contents)
      ensures r == if old(freeSpace) == 0 then 0
                   else match result
                        case Failed(errno) => -errno
                        case Partial(_) => -EINVAL
                        case Events(events) => |events|
    {
      if freeSpace == 0 {
        return 0;
      }
      match result
      case Failed(errno) =>
        return -errno;
      case Partial(scribble) =>
        Receive(scribble);
        return -EINVAL;
      case Events(events) =>
        Receive(events);
        r := |events|;
        if r != 0 {
          Advance(events);
        }
    }

    /** The second half of fill. */
    method Advance(events: seq<InputEvent>)
      requires Valid() && 0 < |events| <= freeSpace
      requires buffer[head..head + |events|] == events
      modifies this`head, this`freeSpace, this`contents, buffer
      ensures Valid() && contents == old(contents) + events
    {
      ghost var h := head;
      assert forall j :: h <= j < h + |events| ==> buffer[j] == events[j - h];
      head := head + |events|;
      freeSpace := freeSpace - |events|;
      if head > capacity {
        var s := head - capacity;
        forall i | 0 <= i < s { buffer[i] := buffer[capacity + i]; }
        head := s;
      }
      contents := contents + events;
      forall k | 0 <= k < |contents| ensures buffer[Position(curr, k, capacity)] == contents[k] { }
    }

    /** readEvent: whether an event is available; `at` is where mCurr points. */
    method ReadEvent() returns (available: bool, at: nat)
      requires Valid()
      ensures available <==> contents != []
      ensures available ==> at < buffer.Length && buffer[at] == contents[0]
    {
      at := curr;
      available := capacity - freeSpace != 0;
      assert available ==> buffer[Position(curr, 0, capacity)] == contents[0];
    }

    /** next, called only when an event is available */
    method Next()
      requires Valid() && contents != []
      modifies this`curr, this`freeSpace, this`contents
      ensures Valid() && contents == old(contents)[1..]
    {
      ghost var c := curr;
      curr := curr + 1;
      freeSpace := freeSpace + 1;
      if curr >= capacity {
        curr := 0;
      }
      contents := contents[1..];
      forall k | 0 <= k < |contents| ensures buffer[Position(curr, k, capacity)] == contents[k] {
        assert Position(curr, k, capacity) == Position(c, k + 1, capacity);
      }
    }
  }
}
