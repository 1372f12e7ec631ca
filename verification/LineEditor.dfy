/** Reading a line from the keyboard in a user program. */
module LineEditor {

  const CR: int := 13
  const BACKSPACE: int := 8

  type byte = x: int | 0 <= x < 256

  /** What the editor does to the terminal. */
  datatype Output = PutChar(c: byte) | RemoveChar

  /** The second byte of a key event tells that the key was released. */
  predicate Released(key: int) { key / 256 > 0 }

  function Character(key: int): byte { key % 256 }

  /** The line after one more key that does not end it. */
  function Typed(line: seq<byte>, key: int): seq<byte> {
    if Released(key) then line
    else if Character(key) == BACKSPACE then (if line == [] then [] else line[..|line| - 1])
    else line + [Character(key)]
  }

  /** A line as far as a stream of keys takes it: finished by a carriage return or by its length, or
      still open when the stream ends. */
  datatype Line = Line(text: seq<byte>, used: nat, finished: bool)

  function Edited(keys: seq<int>, k: nat, text: seq<byte>, max: int): (r: Line)
    requires k <= |keys| && |text| < max
    ensures |r.text| < max && k <= r.used <= |keys|
    ensures !r.finished ==> r.used == |keys|
    decreases |keys| - k
  {
    if |text| == max - 1 then Line(text, k, true)
    else if k == |keys| then Line(text, k, false)
    else if !Released(keys[k]) && Character(keys[k]) == CR then Line(text, k + 1, true)
    else Edited(keys, k + 1, Typed(text, keys[k]), max)
  }

  // ----- what the fold means, in key codes

  /** Characters that are neither a backspace nor a carriage return are typed as they are: up to a carriage
      return, or up to the length of the line. */
  lemma {:induction false} CharactersAreTyped(keys: seq<int>, k: nat, cs: seq<byte>, text: seq<byte>, max: int)
    requires |text| < max && forall i | 0 <= i < |cs| :: cs[i] != 8 && cs[i] != 13
    requires k + |cs| < |keys| && keys[k + |cs|] == 13 && forall i | 0 <= i < |cs| :: cs[i] == keys[k + i]
    ensures Edited(keys, k, text, max) == TypedLine(k, cs, text, max)
    decreases |cs|
  {
    hide Edited, TypedLine;
    if |text| < max - 1 && cs != [] {
      assert cs[0] == keys[k + 0];
      var rest := cs[1..];
      forall i | 0 <= i < |rest|
        ensures rest[i] == keys[k + 1 + i]
      {
        assert cs[i + 1] == keys[k + (i + 1)];
      }
      OneTyped(keys, k, cs[0], text, max);
      CharactersAreTyped(keys, k + 1, rest, text + [cs[0]], max);
      OneMoreTyped(k, cs, text, max);
    } else {
      NothingTyped(keys, k, cs, text, max);
    }
  }

  lemma {:induction false} OneTyped(keys: seq<int>, k: nat, c: byte, text: seq<byte>, max: int)
    requires k < |keys| && keys[k] == c && c != 8 && c != 13 && |text| < max - 1
    ensures Edited(keys, k, text, max) == Edited(keys, k + 1, text + [c], max)
  {
  }

  lemma {:induction false} NothingTyped(keys: seq<int>, k: nat, cs: seq<byte>, text: seq<byte>, max: int)
    requires |text| < max && k + |cs| < |keys| && keys[k + |cs|] == 13 && (|text| == max - 1 || cs == [])
    ensures Edited(keys, k, text, max) == TypedLine(k, cs, text, max)
  {
    assert text + [] == text;
  }

  /** The text and the characters behind it, as far as they fit: with a carriage return if all of them do. */
  function TypedLine(k: nat, cs: seq<byte>, text: seq<byte>, max: int): Line
    requires |text| < max
  {
    if |text| + |cs| < max - 1 then Line(text + cs, k + |cs| + 1, true)
    else Line(text + cs[..max - 1 - |text|], k + (max - 1 - |text|), true)
  }

  lemma OneMoreTyped(k: nat, cs: seq<byte>, text: seq<byte>, max: int)
    requires |text| < max - 1 && cs != []
    ensures TypedLine(k + 1, cs[1..], text + [cs[0]], max) == TypedLine(k, cs, text, max)
  {
    var l, r := TypedLine(k + 1, cs[1..], text + [cs[0]], max), TypedLine(k, cs, text, max);
    assert l.text == r.text;
  }

  /** A line of characters and a carriage return: exactly these characters, as far as they fit. */
  lemma {:induction false} PlainLine(cs: seq<byte>, rest: seq<int>, max: int)
    requires max >= 1 && forall i | 0 <= i < |cs| :: cs[i] != 8 && cs[i] != 13
    ensures |cs| < max - 1 ==> Edited(cs + ([13] + rest), 0, [], max) == Line(cs, |cs| + 1, true)
    ensures |cs| >= max - 1 ==> Edited(cs + ([13] + rest), 0, [], max) == Line(cs[..max - 1], max - 1, true)
  {
    CharactersAreTyped(cs + ([13] + rest), 0, cs, [], max);
    assert [] + cs == cs;
    if |cs| >= max - 1 {
      assert [] + cs[..max - 1] == cs[..max - 1];
    }
  }

  /** The stream without the keys from 256 on, which are releases. */
  function Presses(keys: seq<int>): (r: seq<int>)
    ensures forall key | key in r :: key < 256
  {
    if keys == [] then [] else (if keys[0] < 256 then [keys[0]] else []) + Presses(keys[1..])
  }

  lemma {:induction false} EditedStep(keys: seq<int>, k: nat, text: seq<byte>, max: int)
    requires k < |keys| && |text| < max - 1
    ensures keys[k] >= 256 ==> Edited(keys, k, text, max) == Edited(keys, k + 1, text, max)
  {
  }

  lemma {:induction false} SuffixEdited(keys: seq<int>, k: nat, text: seq<byte>, max: int)
    requires k <= |keys| && |text| < max
    ensures var r, s := Edited(keys, k, text, max), Edited(keys[k..], 0, text, max);
            r.text == s.text && r.finished == s.finished
    decreases |keys| - k
  {
    if |text| < max - 1 && k < |keys| && !(!Released(keys[k]) && Character(keys[k]) == CR) {
      var text' := Typed(text, keys[k]);
      SuffixEdited(keys, k + 1, text', max);
      SuffixEdited(keys[k..], 1, text', max);
      assert keys[k..][1..] == keys[k + 1..];
    }
  }

  /** Releases do not matter: dropping them from the stream leaves text and end of the line as they are. */
  lemma {:induction false} ReleasesIgnored(keys: seq<int>, text: seq<byte>, max: int)
    requires |text| < max
    ensures var r, s := Edited(keys, 0, text, max), Edited(Presses(keys), 0, text, max);
            r.text == s.text && r.finished == s.finished
    decreases |keys|
  {
    if keys != [] && |text| < max - 1 {
      var rest, presses := keys[1..], Presses(keys);
      if keys[0] >= 256 {
        EditedStep(keys, 0, text, max);
        SuffixEdited(keys, 1, text, max);
        ReleasesIgnored(rest, text, max);
        assert presses == Presses(rest);
      } else if !(!Released(keys[0]) && Character(keys[0]) == CR) {
        var text' := Typed(text, keys[0]);
        SuffixEdited(keys, 1, text', max);
        ReleasesIgnored(rest, text', max);
        assert presses == [keys[0]] + Presses(rest);
        SuffixEdited(presses, 1, text', max);
        assert presses[1..] == Presses(rest);
      }
    }
  }

  /** A character and then a backspace leave the line as it was, unless the character fills it; and a
      backspace at the start of a line does nothing. */
  lemma {:induction false} BackspaceUndoes(keys: seq<int>, k: nat, text: seq<byte>, max: int)
    requires k < |keys| && |text| < max
    ensures (k + 1 < |keys| && 0 <= keys[k] < 256 && keys[k] != 8 && keys[k] != 13 && keys[k + 1] == 8
             && |text| + 1 < max - 1) ==>
              Edited(keys, k, text, max) == Edited(keys, k + 2, text, max)
    ensures keys[k] == 8 && text == [] && max > 1 ==> Edited(keys, k, text, max) == Edited(keys, k + 1, text, max)
    ensures 0 <= keys[k] < 256 && keys[k] != 8 && keys[k] != 13 && |text| + 1 == max - 1 ==>
              Edited(keys, k, text, max) == Line(text + [keys[k]], k + 1, true)
  {
    if |text| + 1 < max - 1 && 0 <= keys[k] < 256 && keys[k] != 8 && keys[k] != 13 {
      assert (text + [keys[k] as byte])[..|text|] == text;
    }
  }

  // ----- what appears on the terminal

  /** The terminal calls of the editor: characters only with echo, removals in any case. */
  function Outputs(keys: seq<int>, k: nat, text: seq<byte>, max: int, echo: bool): seq<Output>
    requires k <= |keys| && |text| < max
    decreases |keys| - k
  {
    if |text| == max - 1 || k == |keys| then []
    else if Released(keys[k]) then Outputs(keys, k + 1, text, max, echo)
    else if Character(keys[k]) == CR then []
    else OutputOf(Character(keys[k]), text, echo) + Outputs(keys, k + 1, Typed(text, keys[k]), max, echo)
  }

  function OutputOf(c: byte, text: seq<byte>, echo: bool): seq<Output> {
    if c == BACKSPACE then (if text == [] then [] else [RemoveChar])
    else if echo then [PutChar(c)]
    else []
  }

  /** The screen after some outputs, on top of what it showed before; a removal takes away the last
      character, whoever put it there. */
  function Shown(screen: seq<byte>, trace: seq<Output>): seq<byte>
    decreases |trace|
  {
    if trace == [] then screen
    else
      match trace[0]
      case PutChar(c) => Shown(screen + [c], trace[1..])
      case RemoveChar => Shown(if screen == [] then [] else screen[..|screen| - 1], trace[1..])
  }

  /** With echo, the screen shows the line behind what it showed before, of which nothing is removed. */
  lemma {:induction false} EchoShowsLine(before: seq<byte>, keys: seq<int>, k: nat, text: seq<byte>, max: int)
    requires k <= |keys| && |text| < max
    ensures Shown(before + text, Outputs(keys, k, text, max, true)) == before + Edited(keys, k, text, max).text
    decreases |keys| - k
  {
    if |text| < max - 1 && k < |keys| && !(!Released(keys[k]) && Character(keys[k]) == CR) {
      var text' := Typed(text, keys[k]);
      EchoShowsLine(before, keys, k + 1, text', max);
      if !Released(keys[k]) {
        var out, rest := OutputOf(Character(keys[k]), text, true), Outputs(keys, k + 1, text', max, true);
        if out == [] {
          assert out + rest == rest;
        } else {
          assert (out + rest)[1..] == rest;
          if out[0].PutChar? {
            assert before + text + [Character(keys[k])] == before + text';
          } else {
            assert (before + text)[..|before + text| - 1] == before + text';
          }
        }
      }
    }
  }

  /** Without echo, the same removals appear and nothing else. */
  lemma {:induction false} SilentRemovals(keys: seq<int>, k: nat, text: seq<byte>, max: int)
    requires k <= |keys| && |text| < max
    ensures Outputs(keys, k, text, max, false) == Removals(Outputs(keys, k, text, max, true))
    decreases |keys| - k
  {
    if |text| < max - 1 && k < |keys| && !(!Released(keys[k]) && Character(keys[k]) == CR) {
      var text' := Typed(text, keys[k]);
      SilentRemovals(keys, k + 1, text', max);
      if !Released(keys[k]) {
        var out, rest := OutputOf(Character(keys[k]), text, true), Outputs(keys, k + 1, text', max, true);
        if out == [] {
          assert out + rest == rest;
        } else {
          assert (out + rest)[1..] == rest;
        }
      }
    }
  }

  function Removals(trace: seq<Output>): (r: seq<Output>)
    ensures forall o | o in r :: o == RemoveChar
  {
    if trace == [] then [] else (if trace[0].RemoveChar? then [trace[0]] else []) + Removals(trace[1..])
  }

  /** With echo, every key has its output: a character is put, a backspace removes one if the line has one,
      and releases and the carriage return show nothing. */
  lemma {:induction false} OutputOfKey(keys: seq<int>, k: nat, text: seq<byte>, max: int)
    requires k < |keys| && |text| < max - 1 && keys[k] >= 0
    ensures var out := Outputs(keys, k, text, max, true);
            && (keys[k] == 13 ==> out == [])
            && (keys[k] == 8 && text != [] ==>
                  out == [RemoveChar] + Outputs(keys, k + 1, text[..|text| - 1], max, true))
            && ((keys[k] == 8 && text == []) || keys[k] >= 256 ==> out == Outputs(keys, k + 1, text, max, true))
            && (keys[k] < 256 && keys[k] != 8 && keys[k] != 13 ==>
                  out == [PutChar(keys[k])] + Outputs(keys, k + 1, text + [keys[k]], max, true))
  {
  }

  // ----- the editor

  /** The editor has taken k keys: the line and the output so far lead to those of the whole stream. */
  ghost predicate Editing(keys: seq<int>, k: nat, text: seq<byte>, trace: seq<Output>, max: int, echo: bool) {
    && k <= |keys| && |text| < max
    && Edited(keys, k, text, max) == Edited(keys, 0, [], max)
    && trace + Outputs(keys, k, text, max, echo) == Outputs(keys, 0, [], max, echo)
  }

  lemma {:induction false} KeyTaken(keys: seq<int>, k: nat, text: seq<byte>, trace: seq<Output>, max: int, echo: bool)
    requires Editing(keys, k, text, trace, max, echo) && k < |keys| && |text| < max - 1
    requires Released(keys[k]) || Character(keys[k]) != CR
    ensures var out := if Released(keys[k]) then [] else OutputOf(Character(keys[k]), text, echo);
            Editing(keys, k + 1, Typed(text, keys[k]), trace + out, max, echo)
  {
    hide OutputOf, Edited, Outputs;
    KeyStep(keys, k, text, max, echo);
    var out := if Released(keys[k]) then [] else OutputOf(Character(keys[k]), text, echo);
    var rest := Outputs(keys, k + 1, Typed(text, keys[k]), max, echo);
    assert trace + out + rest == trace + (out + rest);
  }

  lemma {:induction false} KeyStep(keys: seq<int>, k: nat, text: seq<byte>, max: int, echo: bool)
    requires k < |keys| && |text| < max - 1 && (Released(keys[k]) || Character(keys[k]) != CR)
    ensures Edited(keys, k, text, max) == Edited(keys, k + 1, Typed(text, keys[k]), max)
    ensures Outputs(keys, k, text, max, echo)
            == (if Released(keys[k]) then [] else OutputOf(Character(keys[k]), text, echo))
               + Outputs(keys, k + 1, Typed(text, keys[k]), max, echo)
  {
    var rest := Outputs(keys, k + 1, Typed(text, keys[k]), max, echo);
    assert [] + rest == rest;
  }

  lemma {:induction false} EditingEnds(keys: seq<int>, k: nat, text: seq<byte>, trace: seq<Output>,
                                       max: int, echo: bool)
    requires Editing(keys, k, text, trace, max, echo)
    requires |text| == max - 1 || k == |keys| || (!Released(keys[k]) && Character(keys[k]) == CR)
    ensures trace == Outputs(keys, 0, [], max, echo)
    ensures Edited(keys, 0, [], max) == if |text| == max - 1 then Line(text, k, true)
                                        else if k == |keys| then Line(text, k, false)
                                        else Line(text, k + 1, true)
  {
    assert trace + [] == trace;
  }

  lemma {:induction false} EditingBegins(keys: seq<int>, max: int, echo: bool)
    requires max >= 1
    ensures Editing(keys, 0, [], [], max, echo)
  {
    assert [] + Outputs(keys, 0, [], max, echo) == Outputs(keys, 0, [], max, echo);
  }

  /** The loop of the editor, over a stream of keys that may end before the line does. */
  method ReadLine(keys: seq<int>, buf: array<byte>, max: int, echo: bool)
    returns (text: seq<byte>, used: nat, finished: bool, trace: seq<Output>)
    requires 1 <= max <= buf.Length
    modifies buf
    ensures Line(text, used, finished) == Edited(keys, 0, [], max)
    ensures buf[..|text|] == text && (finished ==> buf[|text|] == 0)
    ensures forall j | max <= j < buf.Length :: buf[j] == old(buf[j])
    ensures trace == Outputs(keys, 0, [], max, echo)
  {
    hide Edited, Outputs, Editing;
    var i := 0;
    used, trace, finished := 0, [], true;
    EditingBegins(keys, max, echo);
    assert buf[..0] == [];
    while i < max - 1
      invariant 0 <= i <= max - 1 && used <= |keys| && finished
      invariant Editing(keys, used, buf[..i], trace, max, echo)
      invariant forall j | max <= j < buf.Length :: buf[j] == old(buf[j])
      decreases |keys| - used
    {
      ghost var line, before := buf[..i], trace;
      if used == |keys| {
        EditingEnds(keys, used, line, trace, max, echo);
        finished := false;
        break;
      }
      var ev := keys[used];
      used := used + 1;
      if ev / 256 > 0 {
        i := i - 1;
      } else {
        ev := ev % 256;
        if ev == CR {
          EditingEnds(keys, used - 1, line, trace, max, echo);
          break;
        }
        if ev == BACKSPACE {
          if i > 0 {
            i := i - 2;
            trace := trace + [RemoveChar];
          } else {
            i := i - 1;
          }
        } else {
          buf[i] := ev;
          if echo {
            trace := trace + [PutChar(ev)];
          }
        }
      }
      i := i + 1;
      KeyTaken(keys, used - 1, line, before, max, echo);
      assert buf[..i] == Typed(line, keys[used - 1]);
      assert trace ==
               before + (if Released(keys[used - 1]) then [] else OutputOf(Character(keys[used - 1]), line, echo));
    }
    if i == max - 1 {
      EditingEnds(keys, used, buf[..i], trace, max, echo);
    }
    text := buf[..i];
    if finished {
      buf[i] := 0;
    }
  }
}
