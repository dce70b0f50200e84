/**
 * The scanner of the rich-text renderer: a read-only text and a single read offset that
 * only its own methods move.
 */
module Cursors {
  import opened Texts

  class Cursor {
    const text: Text
    /** The read offset, in storage units. Only `Advance` assigns it. */
    var index: int

    /** The offset lies within the text, so `IsDone` and `CurrentChar` are meaningful. */
    ghost predicate Valid()
      reads this
    {
      0 <= index <= |text|
    }

    constructor (t: Text)
      ensures text == t && index == 0 && Valid()
    {
      text := t;
      index := 0;
    }

    /** Nothing is left to read. */
    function IsDone(): (done: bool)
      reads this
      requires Valid()
      ensures done <==> text[index..] == []
    {
      index == |text|
    }

    /** The unit at the read offset. */
    function CurrentChar(): (c: CodeUnit)
      reads this
      requires Valid() && !IsDone()
      ensures [c] == text[index..index + 1]
    {
      text[index]
    }

    /** Moves the offset by `amount`, unchecked: callers advance only over units they have seen. */
    method Advance(amount: int)
      modifies this
      ensures index == old(index) + amount
    {
      index := index + amount;
    }

    /** When the unread text begins with `s`, skips over it and answers true; otherwise changes nothing. */
    method TryConsume(s: Text) returns (consumed: bool)
      requires Valid()
      modifies this
      ensures Valid()
      ensures consumed <==> OccursAt(text, old(index), s)
      ensures index == if consumed then old(index) + |s| else old(index)
    {
      if index > |text| - |s| || text[index..index + |s|] != s {
        return false;
      }
      Advance(|s|);
      return true;
    }

    /**
     * When a newline starts the unread text, skips over it and answers true: "\r\n" counts as
     * one newline of two units, a lone "\n" or "\r" as one of one unit. Otherwise changes nothing.
     */
    method TryConsumeNewLine() returns (consumed: bool)
      requires Valid()
      modifies this
      ensures Valid()
      ensures consumed <==> old(index) < |text| && (text[old(index)] == LF || text[old(index)] == CR)
      ensures index == old(index) + (if !consumed then 0 else if OccursAt(text, old(index), CrLf) then 2 else 1)
      ensures index == old(index) + NewLineLength(text, old(index))
    {
      if IsDone() {
        return false;
      }
      consumed := TryConsume(CrLf);
      if consumed {
        return;
      }
      if CurrentChar() != LF && CurrentChar() != CR {
        return false;
      }
      Advance(1);
      return true;
    }

    /**
     * Searches the unread text for `closing`. When found, advances up to (not past) its first
     * occurrence and answers the units skipped over; otherwise answers the empty text and
     * changes nothing.
     */
    method ConsumeUntil(closing: Text) returns (skipped: Text)
      requires Valid()
      modifies this
      ensures Valid()
      ensures SkipsTo(text, old(index), closing, |skipped|)
      ensures index == old(index) + |skipped| && skipped == text[old(index)..index]
    {
      var consumedLength := IndexOf(text, index, closing);
      IndexOfFirst(text, index, closing);
      if consumedLength < 0 {
        return [];
      }
      skipped := text[index..index + consumedLength];
      Advance(consumedLength);
    }
  }
}
