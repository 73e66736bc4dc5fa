/**
 Terminal input: the key ring between keyboard and terminal task, and the line editing that serves one read request.
 */
module Tty {

  const TTY_IN_BYTES := 256
  const NEWLINE := 10
  const BACKSPACE := 8

  /** `char ch = key`: a byte; those from 128 on are negative, hence not printable. */
  function CharOf(key: nat): nat { key % 256 }

  predicate Printable(ch: nat) { 32 <= ch <= 126 }

  // ---------------------------------------------------------------- a line, independently of the code

  /** What a row of keys makes of an empty line: characters are appended, a backspace drops the last. */
  function Folded(keys: seq<nat>): seq<nat> {
    if keys == [] then []
    else
      var line, ch := Folded(keys[..|keys| - 1]), keys[|keys| - 1];
      if Printable(ch) then line + [ch] else if ch == BACKSPACE && line != [] then line[..|line| - 1] else line
  }

  /** The keys complete a request for cnt characters: the last is a newline, or the line has all its characters. */
  predicate Completes(keys: seq<nat>, cnt: nat) {
    keys != [] && (keys[|keys| - 1] == NEWLINE || |Folded(keys)| == cnt)
  }

  // ---------------------------------------------------------------- one request, as the code keeps it

  /** tty_left_cnt, and the first tty_trans_cnt bytes of the caller's buffer. */
  datatype Request = Request(left: nat, text: seq<nat>)

  /** One key taken by tty_dev_write. */
  function Edited(q: Request, ch: nat): Request {
    if q.left == 0 then q
    else
      var q' := if Printable(ch) then Request(q.left - 1, q.text + [ch])
                else if ch == BACKSPACE && q.text != [] then Request(q.left + 1, q.text[..|q.text| - 1])
                else q;
      if ch == NEWLINE then q'.(left := 0) else q'
  }

  /** The key ends the request: the reader is resumed. */
  predicate Answers(q: Request, ch: nat) {
    q.left > 0 && Edited(q, ch).left == 0
  }

  /** The characters shown on the console for one key. */
  function Echo(q: Request, ch: nat): seq<nat> {
    if q.left == 0 then []
    else EchoKey(q, ch) + if Edited(q, ch).left == 0 then [NEWLINE] else []
  }

  /** ... before the newline that ends a request. */
  function EchoKey(q: Request, ch: nat): seq<nat> {
    if Printable(ch) || (ch == BACKSPACE && q.text != []) then [ch] else []
  }

  /** The request after a row of keys. */
  function EditedAll(q: Request, keys: seq<nat>): Request {
    if keys == [] then q else Edited(EditedAll(q, keys[..|keys| - 1]), keys[|keys| - 1])
  }

  /** Everything shown while they come in. */
  function EchoAll(q: Request, keys: seq<nat>): seq<nat> {
    if keys == [] then []
    else EchoAll(q, keys[..|keys| - 1]) + Echo(EditedAll(q, keys[..|keys| - 1]), keys[|keys| - 1])
  }

  /** The RESUME_PROC messages for process p: process and count. */
  function AnswersAll(p: int, q: Request, keys: seq<nat>): seq<(int, nat)> {
    if keys == [] then []
    else
      AnswersAll(p, q, keys[..|keys| - 1])
      + if Answers(EditedAll(q, keys[..|keys| - 1]), keys[|keys| - 1]) then [(p, |EditedAll(q, keys).text|)] else []
  }

  /** A new request for cnt characters after a row of keys. */
  function AfterKeys(cnt: nat, keys: seq<nat>): Request {
    EditedAll(Request(cnt, []), keys)
  }

  /** No proper prefix of the keys completes the request. */
  ghost predicate Outstanding(keys: seq<nat>, cnt: nat) {
    forall k | 0 <= k < |keys| :: !Completes(keys[..k], cnt)
  }

  lemma PrefixOutstanding(keys: seq<nat>, cnt: nat)
    requires keys != [] && Outstanding(keys, cnt)
    ensures Outstanding(keys[..|keys| - 1], cnt) && !Completes(keys[..|keys| - 1], cnt)
  {
    var front := keys[..|keys| - 1];
    forall k | 0 <= k < |front| ensures !Completes(front[..k], cnt) {
      assert front[..k] == keys[..k];
    }
  }

  /** While a request for cnt > 0 characters is outstanding the counters add up to cnt and the buffer is the fold of the
      keys; it is answered by exactly that key which completes it. */
  lemma {:induction false} LineIsFold(cnt: nat, keys: seq<nat>)
    requires cnt > 0 && Outstanding(keys, cnt)
    ensures var q := AfterKeys(cnt, keys);
            && q.text == Folded(keys) && |q.text| <= cnt
            && (if Completes(keys, cnt) then q.left == 0 else q.left + |q.text| == cnt && q.left > 0)
  {
    if keys != [] {
      PrefixOutstanding(keys, cnt);
      LineIsFold(cnt, keys[..|keys| - 1]);
    }
  }

  lemma {:induction false} AnswerStays(cnt: nat, keys: seq<nat>, more: seq<nat>)
    requires AfterKeys(cnt, keys).left == 0
    ensures AfterKeys(cnt, keys + more) == AfterKeys(cnt, keys)
  {
    if more == [] {
      assert keys + more == keys;
    } else {
      var front := more[..|more| - 1];
      AnswerStays(cnt, keys, front);
      assert (keys + more)[..|keys + more| - 1] == keys + front;
    }
  }

  /** The keys after the one that completes it are dropped: the answer stays what it was, and there is no second one. */
  lemma AnsweredOnce(cnt: nat, keys: seq<nat>, more: seq<nat>)
    requires AfterKeys(cnt, keys).left == 0
    ensures AfterKeys(cnt, keys + more) == AfterKeys(cnt, keys)
    ensures forall k | 0 <= k < |more| :: !Answers(AfterKeys(cnt, keys + more[..k]), more[k])
  {
    AnswerStays(cnt, keys, more);
    forall k | 0 <= k < |more| ensures !Answers(AfterKeys(cnt, keys + more[..k]), more[k]) {
      AnswerStays(cnt, keys, more[..k]);
    }
  }

  /** A request is answered once, with the number of characters in the line, by the key that completes it; without
      such a key it is not answered. */
  lemma {:induction false} AnswersAre(p: int, cnt: nat, keys: seq<nat>, more: seq<nat>)
    requires cnt > 0 && Outstanding(keys, cnt) && (more != [] ==> Completes(keys, cnt))
    ensures AnswersAll(p, Request(cnt, []), keys + more) == if Completes(keys, cnt) then [(p, |Folded(keys)|)] else []
    decreases |keys| + |more|
  {
    LineIsFold(cnt, keys);
    if more != [] {
      var front := more[..|more| - 1];
      assert (keys + more)[..|keys + more| - 1] == keys + front;
      AnswersAre(p, cnt, keys, front);
      AnswerStays(cnt, keys, front);
    } else if keys != [] {
      var front := keys[..|keys| - 1];
      assert keys + more == keys && front + [] == front;
      PrefixOutstanding(keys, cnt);
      AnswersAre(p, cnt, front, []);
      LineIsFold(cnt, front);
    } else {
      assert keys + more == [];
    }
  }

  lemma FoldedAppend(shown: seq<nat>, ch: nat)
    ensures Folded(shown + [ch]) == if Printable(ch) then Folded(shown) + [ch]
                                    else if ch == BACKSPACE && Folded(shown) != []
                                        then Folded(shown)[..|Folded(shown)| - 1]
                                    else Folded(shown)
  {
    assert (shown + [ch])[..|shown + [ch]| - 1] == shown;
  }

  lemma EchoKeyFolds(shown: seq<nat>, q: Request, ch: nat)
    requires Folded(shown) == q.text && q.left > 0
    ensures Folded(shown + EchoKey(q, ch)) == Edited(q, ch).text
  {
    if EchoKey(q, ch) == [] {
      assert shown + [] == shown;
    } else {
      FoldedAppend(shown, ch);
    }
  }

  /** What the echo of one key leaves on the screen is what the key leaves in the buffer. */
  lemma EchoFolds(shown: seq<nat>, q: Request, ch: nat)
    requires Folded(shown) == q.text
    ensures Folded(shown + Echo(q, ch)) == Edited(q, ch).text
  {
    if q.left == 0 {
      assert shown + [] == shown;
    } else {
      EchoKeyFolds(shown, q, ch);
      var keyed := shown + EchoKey(q, ch);
      if Edited(q, ch).left == 0 {
        assert shown + Echo(q, ch) == keyed + [NEWLINE];
        FoldedAppend(keyed, NEWLINE);
      } else {
        assert shown + Echo(q, ch) == keyed;
      }
    }
  }

  /** What the echo leaves on the screen, where a backspace takes back the last character, is the text in the buffer. */
  lemma {:induction false} ScreenShowsLine(cnt: nat, keys: seq<nat>)
    ensures Folded(EchoAll(Request(cnt, []), keys)) == AfterKeys(cnt, keys).text
  {
    if keys != [] {
      var front := keys[..|keys| - 1];
      ScreenShowsLine(cnt, front);
      EchoFolds(EchoAll(Request(cnt, []), front), AfterKeys(cnt, front), keys[|keys| - 1]);
    }
  }

  /** What one key does to an outstanding request: a character from blank to tilde is appended, a backspace drops the
      last, a newline ends the request, and so does the last character it asked for; every other key does nothing. */
  lemma KeyDoes(q: Request, ch: nat)
    requires q.left > 0
    ensures var q' := Edited(q, ch); var drops := ch == 8 && q.text != [];
            && q'.text == (if 32 <= ch <= 126 then q.text + [ch] else if drops then q.text[..|q.text| - 1] else q.text)
            && (Answers(q, ch) <==> ch == 10 || (32 <= ch <= 126 && q.left == 1))
            && q'.left == (if Answers(q, ch) then 0 else q.left - (|q'.text| - |q.text|))
            && Echo(q, ch) == (if 32 <= ch <= 126 || drops then [ch] else []) + if Answers(q, ch) then [10] else []
  {
  }

  /** The echo of a line has one newline, at its end, when the request is completed, and none before. */
  lemma {:induction false} EchoEndsLine(cnt: nat, keys: seq<nat>)
    requires cnt > 0 && Outstanding(keys, cnt)
    ensures var echo := EchoAll(Request(cnt, []), keys);
            if Completes(keys, cnt) then echo != [] && echo[|echo| - 1] == 10 && 10 !in echo[..|echo| - 1]
            else 10 !in echo
  {
    if keys != [] {
      var front, ch := keys[..|keys| - 1], keys[|keys| - 1];
      PrefixOutstanding(keys, cnt);
      EchoEndsLine(cnt, front);
      LineIsFold(cnt, front);
      LineIsFold(cnt, keys);
      KeyDoes(AfterKeys(cnt, front), ch);
    }
  }

  /** A key code counts with its low byte, of which only the codes from blank to tilde are characters. */
  lemma LowByteCounts(q: Request, key: nat)
    requires q.left > 0
    ensures CharOf(key) < 256 && exists k: nat :: key == 256 * k + CharOf(key)
    ensures 127 <= CharOf(key) ==> Edited(q, CharOf(key)) == q && Echo(q, CharOf(key)) == []
  {
    assert key == 256 * (key / 256) + CharOf(key);
  }

  /** A request for no characters is never answered. */
  lemma {:induction false} EmptyRequestHangs(keys: seq<nat>, ch: nat)
    ensures AfterKeys(0, keys) == Request(0, []) && !Answers(AfterKeys(0, keys), ch)
  {
    if keys != [] { EmptyRequestHangs(keys[..|keys| - 1], ch); }
  }

  // ---------------------------------------------------------------- the code

  class Terminal {
    const inbuf: array<nat>
    var head: nat
    var tail: nat
    var count: nat
    var caller: int
    var procNr: int
    var reqBuf: array<nat>
    var leftCnt: nat
    var transCnt: nat
    /** The characters given to out_char, and the RESUME_PROC messages sent (process and count), so far. */
    var shown: seq<nat>
    var resumed: seq<(int, nat)>

    constructor ()
      ensures Valid() && Keys() == [] && leftCnt == 0 && shown == [] && resumed == [] && fresh(inbuf) && fresh(reqBuf)
    {
      inbuf := new nat[TTY_IN_BYTES];
      head, tail, count := 0, 0, 0;
      caller, procNr := 0, 0;
      reqBuf := new nat[0];
      leftCnt, transCnt := 0, 0;
      shown, resumed := [], [];
    }

    ghost predicate Valid()
      reads this
    {
      && inbuf.Length == TTY_IN_BYTES && inbuf != reqBuf && tail < TTY_IN_BYTES && count <= TTY_IN_BYTES
      && head == Wrapped(tail + count) && (leftCnt > 0 ==> transCnt + leftCnt <= reqBuf.Length)
    }

    ghost function Keys(): seq<nat>
      reads this, inbuf
      requires Valid()
    {
      RingKeys(inbuf[..], tail, count)
    }

    ghost predicate Serving()
      reads this
      requires Valid()
    {
      transCnt <= reqBuf.Length
    }

    /** The request being served. */
    ghost function Pending(): Request
      reads this, reqBuf
      requires Valid() && Serving()
    {
      Request(leftCnt, reqBuf[..transCnt])
    }

    /** A bounded queue: a key that finds the ring full is dropped. */
    method PutKey(key: nat)
      requires Valid()
      modifies this`head, this`count, inbuf
      ensures Valid() && Keys() == if |old(Keys())| < TTY_IN_BYTES then old(Keys()) + [key] else old(Keys())
    {
      if count < TTY_IN_BYTES {
        RingPut(inbuf[..], tail, count, key);
        inbuf[head] := key;
        head := head + 1;
        if head == TTY_IN_BYTES {
          head := 0;
        }
        count := count + 1;
      }
    }

    method TakeKey() returns (key: nat)
      requires Valid() && count > 0
      modifies this`tail, this`count
      ensures Valid() && key == old(Keys())[0] && Keys() == old(Keys())[1..]
    {
      RingTake(inbuf[..], tail, count);
      key := inbuf[tail];
      tail := tail + 1;
      if tail == TTY_IN_BYTES {
        tail := 0;
      }
      count := count - 1;
    }

    /** One key from the ring into the request. */
    method DevWrite()
      requires Valid() && Serving()
      modifies this`tail, this`count, this`leftCnt, this`transCnt, this`shown, this`resumed, reqBuf
      ensures Valid() && Serving()
      ensures |old(Keys())| == 0 ==>
                Keys() == [] && Pending() == old(Pending()) && shown == old(shown) && resumed == old(resumed)
      ensures |old(Keys())| > 0 ==>
                var ch := CharOf(old(Keys())[0]);
                && Keys() == old(Keys())[1..] && Pending() == Edited(old(Pending()), ch)
                && shown == old(shown) + Echo(old(Pending()), ch)
                && resumed == old(resumed) + if Answers(old(Pending()), ch) then [(procNr, |Pending().text|)] else []
    {
      if count > 0 {
        var key := TakeKey();
        EditLine(CharOf(key));
      }
    }

    method EditLine(ch: nat)
      requires Valid() && Serving()
      modifies this`leftCnt, this`transCnt, this`shown, this`resumed, reqBuf
      ensures Valid() && Serving() && inbuf[..] == old(inbuf[..]) && Pending() == Edited(old(Pending()), ch)
      ensures shown == old(shown) + Echo(old(Pending()), ch)
      ensures resumed == old(resumed) + if Answers(old(Pending()), ch) then [(procNr, |Pending().text|)] else []
    {
      if leftCnt > 0 {
        if Printable(ch) {
          shown := shown + [ch];
          reqBuf[transCnt] := ch;
          transCnt := transCnt + 1;
          leftCnt := leftCnt - 1;
        } else if ch == BACKSPACE && transCnt > 0 {
          shown := shown + [ch];
          transCnt := transCnt - 1;
          leftCnt := leftCnt + 1;
        }
        if ch == NEWLINE || leftCnt == 0 {
          shown := shown + [NEWLINE];
          resumed := resumed + [(procNr, transCnt)];
          leftCnt := 0;
        }
      }
    }

    /** A read request takes over; `buf` is the caller's buffer. */
    method DoRead(source: int, proc: int, buf: array<nat>, cnt: nat)
      requires Valid() && buf != inbuf && cnt <= buf.Length
      modifies this`caller, this`procNr, this`reqBuf, this`leftCnt, this`transCnt
      ensures Valid() && Serving() && Pending() == AfterKeys(cnt, []) && procNr == proc && caller == source
              && reqBuf == buf
      ensures Keys() == old(Keys())
    {
      caller, procNr, reqBuf := source, proc, buf;
      leftCnt := cnt;
      transCnt := 0;
    }

    /** The terminal task's inner loop: the keys of the ring go into the request one by one. */
    method Drain()
      requires Valid() && Serving()
      modifies this`tail, this`count, this`leftCnt, this`transCnt, this`shown, this`resumed, reqBuf
      ensures Valid() && Serving() && Keys() == []
      ensures var q, keys := old(Pending()), Chars(old(Keys()));
              && Pending() == EditedAll(q, keys) && shown == old(shown) + EchoAll(q, keys)
              && resumed == old(resumed) + AnswersAll(procNr, q, keys)
    {
      ghost var q, keys, shown0, resumed0 := Pending(), Keys(), shown, resumed;
      ghost var done := 0;
      assert Chars(keys[..0]) == [];
      while count > 0
        invariant Valid() && Serving() && done <= |keys| && Keys() == keys[done..]
        invariant Drained(q, Chars(keys[..done]), shown0, resumed0)
        decreases count
      {
        DrainOne(q, keys, done, shown0, resumed0);
        done := done + 1;
      }
      assert keys[..done] == keys;
    }

    method DrainOne(ghost q: Request, ghost keys: seq<nat>, ghost done: nat, ghost shown0: seq<nat>,
        ghost resumed0: seq<(int, nat)>)
      requires Valid() && done < |keys| && Keys() == keys[done..] && Drained(q, Chars(keys[..done]), shown0, resumed0)
      modifies this`tail, this`count, this`leftCnt, this`transCnt, this`shown, this`resumed, reqBuf
      ensures Valid() && count == old(count) - 1 && Keys() == keys[done + 1..]
      ensures Drained(q, Chars(keys[..done + 1]), shown0, resumed0)
    {
      CharsGrow(keys, done);
      MoreDrained(procNr, q, Chars(keys[..done]), CharOf(keys[done]));
      DevWrite();
    }

    /** The given keys have gone into request q. */
    ghost predicate Drained(q: Request, keys: seq<nat>, shown0: seq<nat>, resumed0: seq<(int, nat)>)
      reads this, reqBuf
    {
      && Valid() && Serving() && Pending() == EditedAll(q, keys) && shown == shown0 + EchoAll(q, keys)
      && resumed == resumed0 + AnswersAll(procNr, q, keys)
    }
  }

  lemma MoreDrained(p: int, q: Request, keys: seq<nat>, ch: nat)
    ensures var q' := EditedAll(q, keys);
            && EditedAll(q, keys + [ch]) == Edited(q', ch) && EchoAll(q, keys + [ch]) == EchoAll(q, keys) + Echo(q', ch)
            && AnswersAll(p, q, keys + [ch])
               == AnswersAll(p, q, keys) + if Answers(q', ch) then [(p, |Edited(q', ch).text|)] else []
  {
    assert (keys + [ch])[..|keys + [ch]| - 1] == keys;
  }

  function Chars(keys: seq<nat>): seq<nat> {
    seq(|keys|, i requires 0 <= i < |keys| => CharOf(keys[i]))
  }

  lemma CharsGrow(keys: seq<nat>, n: nat)
    requires n < |keys|
    ensures Chars(keys[..n + 1]) == Chars(keys[..n]) + [CharOf(keys[n])]
  {
  }

  /** A position of the ring, for positions that have gone round at most once. */
  function Wrapped(x: nat): nat {
    if x < TTY_IN_BYTES then x else x - TTY_IN_BYTES
  }

  /** The keys in the ring, oldest first. */
  function RingKeys(ring: seq<nat>, tail: nat, count: nat): (s: seq<nat>)
    requires |ring| == TTY_IN_BYTES && tail < TTY_IN_BYTES && count <= TTY_IN_BYTES
    ensures |s| == count && forall k | 0 <= k < count :: s[k] == ring[Wrapped(tail + k)]
  {
    seq(count, k requires 0 <= k < count => ring[Wrapped(tail + k)])
  }

  lemma RingPut(ring: seq<nat>, tail: nat, count: nat, key: nat)
    requires |ring| == TTY_IN_BYTES && tail < TTY_IN_BYTES && count < TTY_IN_BYTES
    ensures RingKeys(ring[Wrapped(tail + count) := key], tail, count + 1) == RingKeys(ring, tail, count) + [key]
  {
    var ring' := ring[Wrapped(tail + count) := key];
    var got, want := RingKeys(ring', tail, count + 1), RingKeys(ring, tail, count) + [key];
    forall k | 0 <= k < |want| ensures got[k] == want[k] {
      assert got[k] == ring'[Wrapped(tail + k)];
    }
  }

  lemma RingTake(ring: seq<nat>, tail: nat, count: nat)
    requires |ring| == TTY_IN_BYTES && tail < TTY_IN_BYTES && 0 < count <= TTY_IN_BYTES
    ensures RingKeys(ring, tail, count)[0] == ring[tail]
    ensures RingKeys(ring, tail, count)[1..] == RingKeys(ring, Wrapped(tail + 1), count - 1)
  {
    var got, want := RingKeys(ring, tail, count)[1..], RingKeys(ring, Wrapped(tail + 1), count - 1);
    forall k | 0 <= k < |want| ensures got[k] == want[k] {
      assert got[k] == RingKeys(ring, tail, count)[k + 1] == ring[Wrapped(tail + (k + 1))];
      assert Wrapped(tail + (k + 1)) == Wrapped(Wrapped(tail + 1) + k);
    }
    assert Wrapped(tail + 0) == tail;
  }
}
