/** The controller's buffers and socket, and the string table that announces its strings on it. */
module Lookup {
  import opened Words
  import opened Bytes
  import opened Interning
  import opened Wire
  import opened Serialize

  const BUFFER_SIZE := 8192
  const TABLE_INC := 1024

  /** The part of kieker_controller_state_t that is about output; `socket` holds the bytes written so far. */
  class Controller {
    const buffer: array<Byte>
    const stringBuffer: array<Byte>
    const hostname: CString
    var socket: seq<Byte>

    ghost predicate Valid()
    {
      buffer.Length == stringBuffer.Length == BUFFER_SIZE && buffer != stringBuffer
    }

    /** kieker_controller_setup_buffer, and an open connection nothing was written to. */
    constructor (hostname: CString)
      ensures Valid() && socket == [] && this.hostname == hostname && buffer.Length == stringBuffer.Length == 8192
      ensures fresh(buffer) && fresh(stringBuffer)
    {
      this.hostname := hostname;
      buffer := new Byte[BUFFER_SIZE];
      stringBuffer := new Byte[BUFFER_SIZE];
      socket := [];
    }

    /** kieker_controller_send_string. */
    method SendString(s: CString, id: int)
      requires Valid()
      modifies this`socket, stringBuffer
      ensures socket == old(socket) + Announcement(id, s)
    {
      hide IntBytes;
      var length := |s|;
      var n := SerializeInt32(stringBuffer, 0, -1);
      n := SerializeInt32(stringBuffer, 4, id);
      n := SerializeInt32(stringBuffer, 8, length);
      assert stringBuffer[..12] == IntBytes(-1, 4) + IntBytes(id, 4) + IntBytes(length, 4);
      var i := 0;
      while i < length
        invariant i <= length
        modifies stringBuffer
        invariant stringBuffer[..12 + i] == IntBytes(-1, 4) + IntBytes(id, 4) + IntBytes(length, 4) + s[..i]
      {
        stringBuffer[12 + i] := s[i];
        i := i + 1;
      }
      assert s[..length] == s;
      socket := socket + stringBuffer[..length + 12];
    }

    /** kieker_controller_send. */
    method Send(length: nat)
      requires Valid() && length <= BUFFER_SIZE
      modifies this`socket
      ensures socket == old(socket) + buffer[..length]
    {
      socket := socket + buffer[..length];
    }
  }

  /** kieker_lookup's string list. */
  class StringTable {
    const controller: Controller
    var stringList: array<CString>
    var max: nat
    var top: nat

    ghost predicate Valid()
      reads this
    {
      controller.Valid() && stringList.Length == max && top <= max
    }

    ghost function Table(): Table
      requires Valid()
      reads this, stringList
    {
      stringList[..top]
    }

    /** The state of the serializers: `position` bytes of `buffer` are filled. */
    ghost function OutAt(buffer: array<Byte>, position: nat): Out
      requires Valid() && position <= buffer.Length
      reads this, stringList, controller`socket, buffer
    {
      Out(Table(), controller.socket, buffer[..position])
    }

    constructor (controller: Controller)
      requires controller.Valid()
      ensures Valid() && Table() == [] && this.controller == controller && fresh(stringList)
    {
      this.controller := controller;
      stringList := new CString[0];
      max, top := 0, 0;
    }

    /** kieker_lookup_string_list_add_value. */
    method AddValue(s: CString)
      requires Valid()
      modifies this, stringList, controller`socket, controller.stringBuffer
      ensures Valid() && Table() == old(Table()) + [s]
      ensures controller.socket == old(controller.socket) + Announcement(|old(Table())|, s)
      ensures stringList == old(stringList) || fresh(stringList)
    {
      hide Announcement;
      if top == max {
        Grow();
      }
      controller.SendString(s, top);
      stringList[top] := s;
      top := top + 1;
    }

    /** The `realloc` of the string list. */
    method Grow()
      requires Valid()
      modifies this
      ensures Valid() && Table() == old(Table()) && top == old(top) < max && fresh(stringList)
      ensures max == old(max) + 1024
    {
      var bigger := new CString[max + TABLE_INC](_ => []);
      var i := 0;
      while i < top
        modifies bigger
        invariant i <= top && bigger[..i] == stringList[..i]
      {
        bigger[i] := stringList[i];
        i := i + 1;
      }
      stringList, max := bigger, max + TABLE_INC;
    }

    /** kieker_lookup_find_key_by_string. */
    method FindKeyByString(s: CString) returns (id: nat)
      requires Valid()
      modifies this, stringList, controller`socket, controller.stringBuffer
      ensures Valid() && id == IndexOf(Table(), s) < |Table()|
      ensures Table() == if s in old(Table()) then old(Table()) else old(Table()) + [s]
      ensures controller.socket ==
              old(controller.socket) + (if s in old(Table()) then [] else Announcement(|old(Table())|, s))
      ensures stringList == old(stringList) || fresh(stringList)
    {
      hide Announcement, IndexOf;
      var i := 0;
      while i < top
        invariant i <= top && forall k :: 0 <= k < i ==> stringList[k] != s
      {
        if stringList[i] == s {
          FirstPlace(Table(), s, i);
          return i;
        }
        i := i + 1;
      }
      AddValue(s);
      FirstPlace(Table(), s, top - 1);
      return top - 1;
    }

    /** kieker_serialize_string. */
    method SerializeString(buffer: array<Byte>, offset: nat, s: CString) returns (size: nat)
      requires Valid() && offset + 4 <= buffer.Length && buffer != controller.stringBuffer
      modifies this, stringList, controller`socket, controller.stringBuffer, buffer
      ensures Valid() && size == 4
      ensures OutAt(buffer, offset + 4) == Put(Str(s), old(OutAt(buffer, offset)))
      ensures buffer[offset + 4..] == old(buffer[offset + 4..])
      ensures stringList == old(stringList) || fresh(stringList)
    {
      hide IndexOf, IntBytes, Announcement;
      var id := FindKeyByString(s);
      size := SerializeInt32(buffer, offset, id);
    }
  }

  lemma FirstPlace(table: Table, s: CString, i: nat)
    requires i < |table| && table[i] == s && forall k :: 0 <= k < i ==> table[k] != s
    ensures IndexOf(table, s) == i
  {}
}
