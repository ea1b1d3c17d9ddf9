/** The line editor of the serial console: a ring of characters with the current line behind
    the committed ones. */
module Serial {

  const BUFFER_SIZE := 256
  const NUL := '\0'
  const ESC := 27 as char
  const BACKSPACE := 8 as char
  const DEL := 127 as char

  // ----- the reference editor -----

  /** Committed characters that nobody has read yet, and the line being typed. */
  datatype Editor = Editor(done: string, line: string)

  predicate Erases(c: char) {
    c == BACKSPACE || c == DEL
  }

  predicate Printable(c: char) {
    ' ' <= c < DEL
  }

  function Type(e: Editor, c: char): Editor {
    if c == '\n' then Editor(e.done + e.line + [c], "") else Editor(e.done, e.line + [c])
  }

  function Erase(e: Editor): Editor {
    if e.line == "" then e else Editor(e.done, e.line[..|e.line| - 1])
  }

  function Take(e: Editor): Editor {
    if e.done == "" then e else Editor(e.done[1..], e.line)
  }

  /** What a key stands for in the text, if it types something. */
  function Typed(c: char): string {
    if c == '\r' || c == '\n' then "\n" else if Printable(c) then [c] else ""
  }

  function Key(e: Editor, c: char): Editor {
    if Erases(c) then Erase(e) else if Typed(c) != "" then Type(e, Typed(c)[0]) else e
  }

  function Keys(e: Editor, keys: string): Editor {
    if keys == "" then e else Key(Keys(e, keys[..|keys| - 1]), keys[|keys| - 1])
  }

  /** What the console shows for a key. */
  function EchoKey(e: Editor, c: char): string {
    if Erases(c) then (if e.line == "" then "" else [BACKSPACE, ' ', BACKSPACE]) else Typed(c)
  }

  function Echo(e: Editor, keys: string): string {
    if keys == "" then "" else Echo(e, keys[..|keys| - 1]) + EchoKey(Keys(e, keys[..|keys| - 1]), keys[|keys| - 1])
  }

  /** There is room for what the key types, if anything. */
  predicate Room(e: Editor, c: char) {
    !Erases(c) && Typed(c) != "" ==> |e.done| + |e.line| < BUFFER_SIZE
  }

  /** There is room for whatever the keys type, at the time they are pressed. */
  predicate Fits(e: Editor, keys: string) {
    keys != "" ==> Fits(e, keys[..|keys| - 1]) && Room(Keys(e, keys[..|keys| - 1]), keys[|keys| - 1])
  }

  /** One more key. */
  lemma KeyNext(e: Editor, keys: string, c: char)
    ensures Keys(e, keys + [c]) == Key(Keys(e, keys), c)
    ensures Echo(e, keys + [c]) == Echo(e, keys) + EchoKey(Keys(e, keys), c)
    ensures Fits(e, keys + [c]) <==> Fits(e, keys) && Room(Keys(e, keys), c)
  {
    assert (keys + [c])[..|keys|] == keys;
  }

  /** As long as there is room, text t and screen are what the editor makes of the keys. */
  predicate Follows(e: Editor, shown: string, keys: string, t: Editor, screen: string) {
    Fits(e, keys) ==> t == Keys(e, keys) && screen == shown + Echo(e, keys)
  }

  lemma FollowsOn(e: Editor, shown: string, keys: string, c: char, t: Editor, screen: string, t': Editor, screen': string)
    requires Follows(e, shown, keys, t, screen)
    requires Room(t, c) ==> t' == Key(t, c) && screen' == screen + EchoKey(t, c)
    ensures Follows(e, shown, keys + [c], t', screen')
  {
    KeyNext(e, keys, c);
  }

  /** The rest of what arrives with an escape character is dropped. */
  function Heard(batch: string): (keys: string)
    ensures |keys| <= |batch| && keys == batch[..|keys|] && ESC !in keys
    ensures |keys| < |batch| ==> batch[|keys|] == ESC
  {
    if batch == "" then ""
    else
      var init := Heard(batch[..|batch| - 1]);
      if |init| < |batch| - 1 || batch[|batch| - 1] == ESC then init else batch
  }

  // ----- what keys do -----

  lemma PrintableKey(e: Editor, c: char)
    requires ' ' <= c < 127 as char
    ensures Key(e, c) == Editor(e.done, e.line + [c]) && EchoKey(e, c) == [c]
    ensures Room(e, c) <==> |e.done| + |e.line| < 256
  {
  }

  lemma EnterKey(e: Editor, c: char)
    requires c == '\r' || c == '\n'
    ensures Key(e, c) == Editor(e.done + e.line + "\n", "") && EchoKey(e, c) == "\n"
    ensures Room(e, c) <==> |e.done| + |e.line| < 256
  {
  }

  lemma TextJoined(line: string, text: string, init: string, c: char)
    requires text != "" && init == text[..|text| - 1] && c == text[|text| - 1]
    ensures init + [c] == text && line + init + [c] == line + text
  {
  }

  lemma {:induction false} TextTyped(e: Editor, text: string)
    requires forall i :: 0 <= i < |text| ==> ' ' <= text[i] < 127 as char
    requires |e.done| + |e.line| + |text| <= 256
    ensures Keys(e, text) == Editor(e.done, e.line + text) && Echo(e, text) == text && Fits(e, text)
  {
    if text == "" {
      assert e.line + "" == e.line;
    } else {
      var init, c := text[..|text| - 1], text[|text| - 1];
      TextTyped(e, init);
      TextJoined(e.line, text, init, c);
      KeyNext(e, init, c);
      PrintableKey(Editor(e.done, e.line + init), c);
    }
  }

  /** Printable characters and Enter, as carriage return or newline, commit the line typed, ended
      by a newline, and show it. */
  lemma EnterCommits(e: Editor, text: string, enter: char)
    requires forall i :: 0 <= i < |text| ==> ' ' <= text[i] < 127 as char
    requires (enter == '\r' || enter == '\n') && |e.done| + |e.line| + |text| < 256
    ensures Keys(e, text + [enter]) == Editor(e.done + e.line + text + "\n", "")
    ensures Echo(e, text + [enter]) == text + "\n" && Fits(e, text + [enter])
  {
    TextTyped(e, text);
    KeyNext(e, text, enter);
    EnterKey(Editor(e.done, e.line + text), enter);
    Grouped(e.done, e.line, text, "\n");
  }

  lemma Grouped(a: string, b: string, c: string, d: string)
    ensures a + (b + c) + d == a + b + c + d
  {
  }

  lemma OneKey(e: Editor, c: char)
    ensures Keys(e, [c]) == Key(e, c) && Echo(e, [c]) == EchoKey(e, c) && (Fits(e, [c]) <==> Room(e, c))
  {
    KeyNext(e, "", c);
    assert "" + [c] == [c] && "" + EchoKey(e, c) == EchoKey(e, c);
  }

  /** Backspace and delete take the last character of the line away, on the screen too; a line
      without characters stays, and so does what is committed. */
  lemma EraseKeys(e: Editor, c: char)
    requires c as int == 8 || c as int == 127
    ensures e.line == "" ==> Keys(e, [c]) == e && Echo(e, [c]) == ""
    ensures e.line != "" ==> Keys(e, [c]) == Editor(e.done, e.line[..|e.line| - 1])
    ensures e.line != "" ==> Echo(e, [c]) == [8 as char, ' ', 8 as char]
    ensures Fits(e, [c])
  {
    OneKey(e, c);
  }

  /** Every other control character changes neither the text nor the screen. */
  lemma ControlsIgnored(e: Editor, c: char)
    requires (c < ' ' || c > 127 as char) && c != '\r' && c != '\n' && c as int != 8
    ensures Keys(e, [c]) == e && Echo(e, [c]) == "" && Fits(e, [c])
  {
    OneKey(e, c);
  }

  // ----- what a text comes to -----

  /** The text that keys leave, found from the end: n erasures are still to find their
      character, and none reaches over the end of a line. */
  function Edited(keys: string, n: nat): string {
    if keys == "" then ""
    else
      var init, c := keys[..|keys| - 1], keys[|keys| - 1];
      if Erases(c) then Edited(init, n + 1)
      else if Typed(c) == "" then Edited(init, n)
      else if Typed(c) == "\n" then Edited(init, 0) + "\n"
      else if n > 0 then Edited(init, n - 1)
      else Edited(init, 0) + [c]
  }

  function Erased(line: string, n: nat): string {
    if n <= |line| then line[..|line| - n] else ""
  }

  /** The editor keeps exactly the characters that no later erasure of their line takes away. */
  lemma {:induction false} KeysEdit(keys: string, n: nat)
    ensures var e := Keys(Editor("", ""), keys); e.done + Erased(e.line, n) == Edited(keys, n)
  {
    if keys != "" {
      var init, c := keys[..|keys| - 1], keys[|keys| - 1];
      KeysEdit(init, Due(c, n));
      assert keys == init + [c];
      EditedNext(init, c, n);
      KeyNext(Editor("", ""), init, c);
      EditStep(Keys(Editor("", ""), init), c, n, Edited(init, Due(c, n)));
    }
  }

  /** How many erasures are still to find their character in front of c, if n are behind it. */
  function Due(c: char, n: nat): nat {
    if Erases(c) then n + 1 else if Typed(c) == "" then n else if Typed(c) == "\n" || n == 0 then 0 else n - 1
  }

  /** What c leaves of itself. */
  function Left(c: char, n: nat): string {
    if Erases(c) || Typed(c) == "" then "" else if Typed(c) == "\n" then "\n" else if n > 0 then "" else [c]
  }

  lemma EditedNext(init: string, c: char, n: nat)
    ensures Edited(init + [c], n) == Edited(init, Due(c, n)) + Left(c, n)
  {
    assert (init + [c])[..|init|] == init;
  }

  lemma EditStep(e: Editor, c: char, n: nat, before: string)
    requires before == e.done + Erased(e.line, Due(c, n))
    ensures Key(e, c).done + Erased(Key(e, c).line, n) == before + Left(c, n)
  {
    ErasedLess(e, c, n);
    if !Erases(c) && Typed(c) != "" {
      if Typed(c) == "\n" {
        assert before == e.done + e.line;
        assert Key(e, c) == Editor(before + "\n", "") && before + "\n" + "" == before + "\n";
      } else {
        assert Key(e, c) == Editor(e.done, e.line + [c]);
        assert n == 0 ==> e.done + (e.line + [c]) == e.done + e.line + [c];
      }
    }
  }

  lemma ErasedLess(e: Editor, c: char, n: nat)
    ensures Erased(Erase(e).line, n) == Erased(e.line, n + 1)
    ensures Erased(e.line, 0) == e.line && Erased("", n) == ""
    ensures n > 0 ==> Erased(e.line + [c], n) == Erased(e.line, n - 1)
    ensures Erased(e.line + [c], 0) == e.line + [c]
  {
  }

  /** One text goes on from another with whole lines. */
  predicate Extends(t: string, s: string) {
    |s| <= |t| && t[..|s|] == s && (|t| > |s| ==> t[|t| - 1] == '\n')
  }

  lemma ExtendsOn(s: string, t: string, u: string)
    requires Extends(t, s) && Extends(u, t)
    ensures Extends(u, s)
  {
    assert u[..|s|] == u[..|t|][..|s|];
  }

  lemma KeyCommits(e: Editor, c: char)
    ensures Extends(Key(e, c).done, e.done)
  {
  }

  /** Committed characters stay as they are: keys only add whole lines behind them. */
  lemma {:induction false} CommittedStays(e: Editor, keys: string)
    ensures Extends(Keys(e, keys).done, e.done)
  {
    if keys != "" {
      var t := Keys(e, keys[..|keys| - 1]);
      CommittedStays(e, keys[..|keys| - 1]);
      KeyCommits(t, keys[|keys| - 1]);
      ExtendsOn(e.done, t.done, Keys(e, keys).done);
    }
  }

  lemma HeardAll(batch: string, i: nat)
    requires i <= |batch| && ESC !in batch[..i] && (i < |batch| ==> batch[i] == ESC)
    ensures Heard(batch) == batch[..i]
  {
  }

  /** Characters arrive, or a reader asks for one. */
  datatype Event = Arrive(batch: string) | Read

  function After(e: Editor, events: seq<Event>): Editor {
    if events == [] then e
    else
      var t := After(e, events[..|events| - 1]);
      match events[|events| - 1]
      case Arrive(batch) => Keys(t, Heard(batch))
      case Read => Take(t)
  }

  /** All that readers get. */
  function Delivered(e: Editor, events: seq<Event>): string {
    if events == [] then ""
    else
      var t, out := After(e, events[..|events| - 1]), Delivered(e, events[..|events| - 1]);
      if events[|events| - 1].Read? && t.done != "" then out + [t.done[0]] else out
  }

  /** All the keys that were heard, without the reads between them. */
  function KeysOf(events: seq<Event>): string {
    if events == [] then ""
    else
      var keys, last := KeysOf(events[..|events| - 1]), events[|events| - 1];
      if last.Arrive? then keys + Heard(last.batch) else keys
  }

  lemma KeyBehind(read: string, e: Editor, c: char)
    ensures Key(Editor(read + e.done, e.line), c) == Editor(read + Key(e, c).done, Key(e, c).line)
  {
    if !Erases(c) && Typed(c) == "\n" {
      assert read + e.done + e.line + ['\n'] == read + (e.done + e.line + ['\n']);
    }
  }

  lemma {:induction false} KeysBehind(read: string, e: Editor, keys: string)
    ensures Keys(Editor(read + e.done, e.line), keys) == Editor(read + Keys(e, keys).done, Keys(e, keys).line)
  {
    if keys != "" {
      KeysBehind(read, e, keys[..|keys| - 1]);
      KeyBehind(read, Keys(e, keys[..|keys| - 1]), keys[|keys| - 1]);
    }
  }

  lemma {:induction false} KeysJoin(e: Editor, keys: string, more: string)
    ensures Keys(e, keys + more) == Keys(Keys(e, keys), more)
    decreases |more|
  {
    if more == "" {
      assert keys + more == keys;
    } else {
      var init, c := more[..|more| - 1], more[|more| - 1];
      KeysJoin(e, keys, init);
      assert more == init + [c] && keys + more == keys + init + [c];
      KeyNext(e, keys + init, c);
      KeyNext(Keys(e, keys), init, c);
    }
  }

  lemma ArriveStep(e: Editor, keys: string, more: string, t: Editor, read: string)
    requires Keys(e, keys) == Editor(read + t.done, t.line)
    ensures Keys(e, keys + more) == Editor(read + Keys(t, more).done, Keys(t, more).line)
  {
    KeysJoin(e, keys, more);
    KeysBehind(read, t, more);
  }

  lemma ReadStep(read: string, done: string)
    requires done != ""
    ensures read + [done[0]] + done[1..] == read + done
  {
  }

  /** Readers get the committed text from its start, each character once and in order, however
      their reads fall between the keys: with what still waits it is all that the same keys
      commit when nobody reads. */
  lemma {:induction false} ReadersGetText(e: Editor, events: seq<Event>)
    ensures Delivered(e, events) + After(e, events).done == Keys(e, KeysOf(events)).done
    ensures After(e, events).line == Keys(e, KeysOf(events)).line
  {
    if events != [] {
      var init, last := events[..|events| - 1], events[|events| - 1];
      var t, read := After(e, init), Delivered(e, init);
      ReadersGetText(e, init);
      match last
      case Arrive(batch) =>
        ArriveStep(e, KeysOf(init), Heard(batch), t, read);
      case Read =>
        if t.done != "" {
          ReadStep(read, t.done);
        }
    }
  }

  /** The text never exceeds the ring. */
  predicate AllFit(e: Editor, events: seq<Event>) {
    events != [] ==>
      var init, last := events[..|events| - 1], events[|events| - 1];
      AllFit(e, init) && (last.Arrive? ==> Fits(After(e, init), Heard(last.batch)))
  }

  // ----- the ring -----

  /** The characters from position a to position b, as a ring with the cells r shows them. */
  ghost function View(r: seq<char>, a: nat, b: nat): (s: string)
    requires |r| == BUFFER_SIZE && a <= b
    ensures |s| == b - a
  {
    seq(b - a, i requires 0 <= i < b - a => r[(a + i) % BUFFER_SIZE])
  }

  lemma ViewJoin(r: seq<char>, a: nat, m: nat, b: nat)
    requires |r| == BUFFER_SIZE && a <= m <= b
    ensures View(r, a, m) + View(r, m, b) == View(r, a, b)
  {
  }

  lemma WriteFits(r: seq<char>, a: nat, b: nat, c: char)
    requires |r| == BUFFER_SIZE && a <= b && (b - a < BUFFER_SIZE || r[b % BUFFER_SIZE] == c)
    ensures forall m :: a <= m <= b ==> View(r[b % BUFFER_SIZE := c], a, m) == View(r, a, m)
    ensures View(r[b % BUFFER_SIZE := c], a, b + 1) == View(r, a, b) + [c]
  {
    if r[b % BUFFER_SIZE] == c {
      assert r[b % BUFFER_SIZE := c] == r;
    } else {
      forall k | a <= k < b
        ensures k % BUFFER_SIZE != b % BUFFER_SIZE
      {
      }
    }
  }

  lemma WriteHurts(r: seq<char>, a: nat, b: nat, c: char)
    requires |r| == BUFFER_SIZE && b - a >= BUFFER_SIZE && r[b % BUFFER_SIZE] != c
    ensures View(r[b % BUFFER_SIZE := c], a, b + 1) != View(r, a, b) + [c]
  {
    var k := b - a - BUFFER_SIZE;
    assert (a + k) % BUFFER_SIZE == b % BUFFER_SIZE;
    assert View(r[b % BUFFER_SIZE := c], a, b + 1)[k] == c;
    assert (View(r, a, b) + [c])[k] == r[b % BUFFER_SIZE];
  }

  /** A line of 256 characters leaves no room: what is typed then takes the place of the first
      character, and the line no longer reads as it was typed. */
  lemma LineOverrun()
    ensures var line := seq(BUFFER_SIZE, _ => 'a');
            && View(line, 0, BUFFER_SIZE) == line
            && View(line[0 := '\n'], 0, BUFFER_SIZE + 1) != line + ['\n']
            && View(line[0 := '\n'], 0, BUFFER_SIZE + 1)[0] == '\n'
  {
    WriteHurts(seq(BUFFER_SIZE, _ => 'a'), 0, BUFFER_SIZE, '\n');
  }

  class Console {
    const buffer: array<char>
    var head: nat
    var tail: nat
    var clapboard: nat
    /** What was sent to the screen. */
    var screen: string

    ghost predicate Valid()
      reads this, buffer
    {
      && buffer.Length == BUFFER_SIZE && head <= clapboard <= tail
      && forall k :: head <= k < tail ==> buffer[k % BUFFER_SIZE] != NUL
    }

    ghost function State(): Editor
      requires Valid()
      reads this, buffer
    {
      Editor(View(buffer[..], head, clapboard), View(buffer[..], clapboard, tail))
    }

    constructor ()
      ensures Valid() && State() == Editor("", "") && screen == "" && fresh(buffer)
    {
      buffer := new char[BUFFER_SIZE](_ => NUL);
      head, tail, clapboard, screen := 0, 0, 0, "";
    }

    /** Types a character. That is all it does if and only if the ring has room, or what it
        writes over is the same character. */
    method PushBack(c: char)
      requires Valid() && c != NUL
      modifies this`tail, this`clapboard, buffer
      ensures Valid()
      ensures State() == Type(old(State()), c) <==> old(tail - head) < BUFFER_SIZE || old(buffer[tail % BUFFER_SIZE]) == c
    {
      buffer[tail % BUFFER_SIZE] := c;
      tail := tail + 1;
      if c == '\n' {
        clapboard := tail;
      }
      ghost var r, h, m, t := old(buffer[..]), head, old(clapboard), old(tail);
      assert buffer[..] == r[t % BUFFER_SIZE := c];
      ViewJoin(r, h, m, t);
      ViewJoin(buffer[..], h, clapboard, tail);
      if t - h < BUFFER_SIZE || r[t % BUFFER_SIZE] == c {
        WriteFits(r, h, t, c);
        WriteFits(r, m, t, c);
      } else {
        WriteHurts(r, h, t, c);
      }
    }

    method PopBack() returns (c: char)
      requires Valid()
      modifies this`tail
      ensures Valid() && State() == Erase(old(State()))
      ensures var line := old(State()).line; if line == "" then c == NUL else c == line[|line| - 1] != NUL
    {
      if tail > clapboard {
        tail := tail - 1;
        return buffer[tail % BUFFER_SIZE];
      }
      return NUL;
    }

    method PopFront() returns (c: char)
      requires Valid()
      modifies this`head
      ensures Valid() && State() == Take(old(State()))
      ensures var done := old(State()).done; if done == "" then c == NUL else c == done[0] != NUL
    {
      if clapboard > head {
        head := head + 1;
        return buffer[(head - 1) % BUFFER_SIZE];
      }
      return NUL;
    }

    method PutChar(c: char)
      modifies this`screen
      ensures screen == old(screen) + [c]
    {
      screen := screen + [c];
    }

    /** One character that has arrived, other than escape. */
    method HandleKey(key: char)
      requires Valid() && key != ESC
      modifies this, buffer
      ensures Valid() && head == old(head)
      ensures Room(old(State()), key) ==>
              State() == Key(old(State()), key) && screen == old(screen) + EchoKey(old(State()), key)
    {
      var ch := key;
      if ch == NUL {
        return;
      }
      if ch == BACKSPACE || ch == DEL {
        var c := PopBack();
        if c != NUL {
          PutChar(BACKSPACE);
          PutChar(' ');
          PutChar(BACKSPACE);
        }
        return;
      }
      if ch == '\r' {
        ch := '\n';
      }
      if ch == '\n' || ' ' <= ch < DEL {
        PutChar(ch);
        PushBack(ch);
      }
    }

    /** Takes what has arrived. Head, clapboard and tail stay in order in any case; as long as
        there is room, text and screen are those of the reference editor. */
    method Handle(batch: string)
      requires Valid()
      modifies this, buffer
      ensures Valid() && head == old(head)
      ensures Fits(old(State()), Heard(batch)) ==>
              State() == Keys(old(State()), Heard(batch)) && screen == old(screen) + Echo(old(State()), Heard(batch))
    {
      ghost var e, shown, keys := State(), screen, "";
      var i := 0;
      while i < |batch|
        invariant Valid() && head == old(head) && i <= |batch| && keys == batch[..i] && ESC !in keys
        invariant Follows(e, shown, keys, State(), screen)
      {
        if batch[i] == ESC {
          HeardAll(batch, i);
          return;
        }
        Round(batch[i], e, shown, keys);
        keys := keys + [batch[i]];
        i := i + 1;
      }
      HeardAll(batch, i);
    }

    method Round(key: char, ghost e: Editor, ghost shown: string, ghost keys: string)
      requires Valid() && key != ESC && Follows(e, shown, keys, State(), screen)
      modifies this, buffer
      ensures Valid() && head == old(head) && Follows(e, shown, keys + [key], State(), screen)
    {
      HandleKey(key);
      FollowsOn(e, shown, keys, key, old(State()), old(screen), State(), screen);
    }

    /** Every interleaving of input and reads delivers what the reference editor would. */
    method Serve(events: seq<Event>) returns (out: string)
      requires Valid()
      modifies this, buffer
      ensures Valid()
      ensures AllFit(old(State()), events) ==>
              State() == After(old(State()), events) && out == Delivered(old(State()), events)
    {
      ghost var e := State();
      out := "";
      for i := 0 to |events|
        invariant Valid()
        invariant AllFit(e, events[..i]) ==> State() == After(e, events[..i]) && out == Delivered(e, events[..i])
      {
        assert events[..i + 1][..i] == events[..i];
        match events[i] {
          case Arrive(batch) =>
            Handle(batch);
          case Read =>
            var c := PopFront();
            if c != NUL {
              out := out + [c];
            }
        }
      }
      assert events[..|events|] == events;
    }
  }
}
