/**
 JsonStreamReader::In: a flat object is read into a buffer of keys and a buffer
 of values, each entry ended by a NUL.
 */
module JsonReader {
  import opened CStrings
  import opened Options

  const MAX_JSON_PATH: nat := 4096

  // ------------------------------------------------------------------
  // The reader as a function of the characters
  // ------------------------------------------------------------------

  // probing: inside a value. keys and values are what the cursors have passed.
  datatype Progress = Progress(probing: bool, keys: string, values: string)

  predicate IsNewline(c: char) { c == '\r' || c == '\n' }

  function Feed(p: Progress, c: char, inArray: bool): Progress {
    if IsNewline(c) then p
    else if p.probing then
      if c == ',' || c == (if inArray then ']' else '}') then Progress(false, p.keys, p.values + "\0")
      else p.(values := p.values + [c])
    else if inArray then p
    else if c == ':' then Progress(true, p.keys + "\0", p.values)
    else p.(keys := p.keys + [c])
  }

  function FeedAll(p: Progress, text: string, inArray: bool): (q: Progress)
    ensures |q.keys| + |q.values| <= |p.keys| + |p.values| + |text|
    decreases |text|
  {
    if |text| == 0 then p else FeedAll(Feed(p, text[0], inArray), text[1..], inArray)
  }

  /** What reading a text gives: None is the null document. */
  function Read(text: string): (p: Option<Progress>)
    ensures p.Some? <==> |text| > 0 && (text[0] == '{' || text[0] == '[')
    ensures p.Some? ==> |p.value.keys| + |p.value.values| < |text|
  {
    if |text| > 0 && text[0] == '{' then Some(FeedAll(Progress(false, "", ""), text[1..], false))
    else if |text| > 0 && text[0] == '[' then Some(FeedAll(Progress(true, "", ""), text[1..], true))
    else None
  }

  // ------------------------------------------------------------------
  // The reader
  // ------------------------------------------------------------------

  // A zeroed buffer that holds some text at its start.
  ghost predicate Holds(buffer: array<char>, text: string)
    reads buffer
  {
    && |text| <= buffer.Length
    && (forall i :: 0 <= i < |text| ==> buffer[i] == text[i])
    && forall i :: |text| <= i < buffer.Length ==> buffer[i] == '\0'
  }

  class Json {
    const key: array<char>
    const value: array<char>

    constructor ()
      ensures key.Length == value.Length == MAX_JSON_PATH && key != value
      ensures fresh(key) && fresh(value)
      ensures Holds(key, "") && Holds(value, "")
    {
      key := new char[MAX_JSON_PATH](_ => '\0');
      value := new char[MAX_JSON_PATH](_ => '\0');
    }
  }

  // Writes the character at the cursor, the end of the text held.
  method Put(buffer: array<char>, cursor: nat, c: char, ghost text: string)
    requires Holds(buffer, text) && cursor == |text| < buffer.Length
    modifies buffer
    ensures Holds(buffer, text + [c])
  {
    buffer[cursor] := c;
  }

  // A cursor that moves over a zero ends the text with a NUL.
  lemma SkipZero(buffer: array<char>, text: string)
    requires Holds(buffer, text) && |text| < buffer.Length
    ensures Holds(buffer, text + "\0")
  {
  }

  /** No text of at most 4096 characters makes the cursors leave the buffers. */
  method In(fullArray: CString) returns (json: Option<Json>)
    requires |fullArray| <= MAX_JSON_PATH
    ensures json.Some? <==> Read(fullArray).Some?
    ensures json.Some? ==>
              && fresh(json.value) && fresh(json.value.key) && fresh(json.value.value)
              && Holds(json.value.key, Read(fullArray).value.keys)
              && Holds(json.value.value, Read(fullArray).value.values)
  {
    var startVal, endVal, probeValue := '{', '}', false;
    if At(fullArray, 0) != startVal {
      if At(fullArray, 0) != '[' {
        return None;
      }
      startVal, endVal, probeValue := '[', ']', true;
    }
    hide FeedAll, IsCString, Holds;
    ghost var inArray := startVal == '[';
    var keyLen, valueLen := 0, 0;
    var document := new Json();
    ghost var done := Progress(probeValue, "", "");
    var i := 1;
    while i < |fullArray|
      invariant 1 <= i <= |fullArray|
      invariant Read(fullArray) == Some(FeedAll(done, fullArray[i..], inArray))
      invariant done.probing == probeValue
      invariant |done.keys| == keyLen && |done.values| == valueLen && keyLen + valueLen < i
      invariant Holds(document.key, done.keys) && Holds(document.value, done.values)
    {
      var c := fullArray[i];
      FeedAllFirst(done, fullArray[i..], inArray);
      assert fullArray[i..][1..] == fullArray[i + 1..];
      i := i + 1;
      if c == '\r' || c == '\n' {
        continue;
      }
      ghost var before := done;
      done := Feed(done, c, inArray);
      if probeValue {
        if c == endVal || c == ',' {
          probeValue := false;
          SkipZero(document.value, before.values);
          valueLen := valueLen + 1;
        } else {
          Put(document.value, valueLen, c, before.values);
          valueLen := valueLen + 1;
        }
      } else {
        if startVal == '[' {
          continue;
        }
        if c == ':' {
          probeValue := true;
          Put(document.key, keyLen, '\0', before.keys);
          keyLen := keyLen + 1;
        } else {
          Put(document.key, keyLen, c, before.keys);
          keyLen := keyLen + 1;
        }
      }
    }
    FeedAllNothing(done, fullArray[i..], inArray);
    Terminate(document.value, valueLen, done.values);
    return Some(document);
  }

  // Writes the final NUL, where the buffer is already zero.
  method Terminate(buffer: array<char>, cursor: nat, ghost text: string)
    requires Holds(buffer, text) && cursor == |text| < buffer.Length
    modifies buffer
    ensures Holds(buffer, text)
  {
    buffer[cursor] := '\0';
  }

  lemma FeedAllFirst(p: Progress, text: string, inArray: bool)
    requires |text| > 0
    ensures FeedAll(p, text, inArray) == FeedAll(Feed(p, text[0], inArray), text[1..], inArray)
  {
  }

  lemma FeedAllNothing(p: Progress, text: string, inArray: bool)
    requires |text| == 0
    ensures FeedAll(p, text, inArray) == p
  {
  }

  // ------------------------------------------------------------------
  // Objects
  // ------------------------------------------------------------------

  datatype Pair = Pair(key: string, value: string)

  predicate Lacks(s: string, banned: set<char>) {
    forall i :: 0 <= i < |s| ==> s[i] !in banned
  }

  // Keys may hold anything but ':', values anything but ',' and '}', and
  // neither holds a line end or a NUL.
  predicate Plain(pairs: seq<Pair>) {
    forall i :: 0 <= i < |pairs| ==>
      && Lacks(pairs[i].key, {':', '\r', '\n', '\0'})
      && Lacks(pairs[i].value, {',', '}', '\r', '\n', '\0'})
  }

  function Members(pairs: seq<Pair>): string
    requires |pairs| > 0
  {
    var first := pairs[0].key + ":" + pairs[0].value;
    if |pairs| == 1 then first + "}" else first + "," + Members(pairs[1..])
  }

  function Printed(pairs: seq<Pair>): string {
    if pairs == [] then "{}" else "{" + Members(pairs)
  }

  function Keys(pairs: seq<Pair>): (keys: seq<string>)
    ensures |keys| == |pairs| && forall i :: 0 <= i < |pairs| ==> keys[i] == pairs[i].key
  {
    seq(|pairs|, i requires 0 <= i < |pairs| => pairs[i].key)
  }

  function Values(pairs: seq<Pair>): (values: seq<string>)
    ensures |values| == |pairs| && forall i :: 0 <= i < |pairs| ==> values[i] == pairs[i].value
  {
    seq(|pairs|, i requires 0 <= i < |pairs| => pairs[i].value)
  }

  function Ended(s: string): string { s + "\0" }

  // Every string followed by a NUL.
  function Joined(ss: seq<string>): string {
    if ss == [] then "" else Ended(ss[0]) + Joined(ss[1..])
  }

  function FirstPart(s: string): (n: nat)
    ensures n <= |s|
    ensures forall i :: 0 <= i < n ==> s[i] != '\0'
    ensures n < |s| ==> s[n] == '\0'
  {
    if s == "" || s[0] == '\0' then 0 else 1 + FirstPart(s[1..])
  }

  // The first n NUL-terminated strings of a buffer.
  function Split(s: string, n: nat): seq<string>
    decreases n
  {
    if n == 0 then []
    else
      var k := FirstPart(s);
      [s[..k]] + Split(if k < |s| then s[k + 1..] else "", n - 1)
  }

  lemma {:induction false} FeedAllConcat(p: Progress, a: string, b: string, inArray: bool)
    ensures FeedAll(p, a + b, inArray) == FeedAll(FeedAll(p, a, inArray), b, inArray)
    decreases |a|
  {
    hide Feed;
    if |a| == 0 {
      assert a + b == b;
    } else {
      assert (a + b)[1..] == a[1..] + b;
      FeedAllConcat(Feed(p, a[0], inArray), a[1..], b, inArray);
    }
  }

  lemma {:induction false} FeedKey(p: Progress, key: string)
    requires !p.probing && Lacks(key, {':', '\r', '\n'})
    ensures FeedAll(p, key, false) == p.(keys := p.keys + key)
    decreases |key|
  {
    if |key| == 0 {
      assert p.keys + key == p.keys;
    } else {
      FeedKey(p.(keys := p.keys + [key[0]]), key[1..]);
      assert p.keys + [key[0]] + key[1..] == p.keys + key;
    }
  }

  lemma {:induction false} FeedValue(p: Progress, value: string, inArray: bool)
    requires p.probing && Lacks(value, {',', if inArray then ']' else '}', '\r', '\n'})
    ensures FeedAll(p, value, inArray) == p.(values := p.values + value)
    decreases |value|
  {
    if |value| == 0 {
      assert p.values + value == p.values;
    } else {
      FeedValue(p.(values := p.values + [value[0]]), value[1..], inArray);
      assert p.values + [value[0]] + value[1..] == p.values + value;
    }
  }

  lemma FeedOne(p: Progress, c: char, inArray: bool)
    ensures FeedAll(p, [c], inArray) == Feed(p, c, inArray)
  {
    assert [c][1..] == "";
  }

  // One pair and the character after it.
  lemma FeedPair(p: Progress, pair: Pair, end: char)
    requires !p.probing && Plain([pair]) && (end == ',' || end == '}')
    ensures FeedAll(p, pair.key + ":" + pair.value + [end], false)
            == Progress(false, p.keys + pair.key + "\0", p.values + pair.value + "\0")
  {
    assert Lacks([pair][0].key, {':', '\r', '\n', '\0'}) && Lacks([pair][0].value, {',', '}', '\r', '\n', '\0'});
    assert Lacks(pair.key, {':', '\r', '\n'}) && Lacks(pair.value, {',', '}', '\r', '\n'});
    hide Lacks, Plain, FeedAll;
    var keyRead := p.(keys := p.keys + pair.key);
    FeedKey(p, pair.key);
    FeedAllConcat(p, pair.key, ":", false);
    FeedOne(keyRead, ':', false);
    var inValue := Progress(true, keyRead.keys + "\0", p.values);
    FeedAllConcat(p, pair.key + ":", pair.value, false);
    FeedValue(inValue, pair.value, false);
    FeedAllConcat(p, pair.key + ":" + pair.value, [end], false);
    FeedOne(inValue.(values := p.values + pair.value), end, false);
  }

  lemma JoinedFirst(before: string, ss: seq<string>)
    requires |ss| > 0
    ensures before + Joined(ss) == before + ss[0] + "\0" + Joined(ss[1..])
  {
    var rest := Joined(ss[1..]);
    assert Joined(ss) == ss[0] + "\0" + rest;
    hide Joined;
    ConcatAssociates(before, ss[0], "\0", rest);
  }

  lemma ConcatAssociates(a: string, b: string, c: string, d: string)
    ensures a + (b + c + d) == a + b + c + d
  {
  }

  lemma MembersFirst(pairs: seq<Pair>)
    requires |pairs| > 0
    ensures var first := pairs[0].key + ":" + pairs[0].value;
            Members(pairs) == if |pairs| == 1 then first + "}" else (first + ",") + Members(pairs[1..])
  {
  }

  lemma ListsFirst(pairs: seq<Pair>)
    requires |pairs| > 0
    ensures Keys(pairs)[1..] == Keys(pairs[1..]) && Values(pairs)[1..] == Values(pairs[1..])
  {
  }

  lemma PlainParts(pairs: seq<Pair>)
    requires |pairs| > 0 && Plain(pairs)
    ensures Plain([pairs[0]]) && Plain(pairs[1..])
  {
    hide Lacks;
  }

  lemma {:induction false} FeedMembers(p: Progress, pairs: seq<Pair>)
    requires |pairs| > 0 && Plain(pairs) && !p.probing
    ensures FeedAll(p, Members(pairs), false)
            == Progress(false, p.keys + Joined(Keys(pairs)), p.values + Joined(Values(pairs)))
    decreases |pairs|
  {
    hide FeedAll, Members, Keys, Values, Plain;
    var pair := pairs[0];
    var next := Progress(false, p.keys + pair.key + "\0", p.values + pair.value + "\0");
    MembersFirst(pairs);
    ListsFirst(pairs);
    PlainParts(pairs);
    JoinedFirst(p.keys, Keys(pairs));
    JoinedFirst(p.values, Values(pairs));
    FeedPair(p, pair, if |pairs| == 1 then '}' else ',');
    if |pairs| == 1 {
      assert Joined(Keys(pairs[1..])) == "" && Joined(Values(pairs[1..])) == "";
    } else {
      FeedMembers(next, pairs[1..]);
      FeedAllConcat(p, pair.key + ":" + pair.value + ",", Members(pairs[1..]), false);
    }
  }

  /** Reading the printed form of one or more plain pairs gives the keys and the
      values, each ended by NUL. */
  lemma PrintedObjectReads(pairs: seq<Pair>)
    requires |pairs| > 0 && Plain(pairs)
    ensures Read(Printed(pairs)) == Some(Progress(false, Joined(Keys(pairs)), Joined(Values(pairs))))
  {
    FeedMembers(Progress(false, "", ""), pairs);
    assert Printed(pairs)[1..] == Members(pairs);
    assert "" + Joined(Keys(pairs)) == Joined(Keys(pairs)) && "" + Joined(Values(pairs)) == Joined(Values(pairs));
  }

  lemma FirstPartIs(a: string, rest: string)
    requires Lacks(a, {'\0'})
    ensures var s := a + "\0" + rest;
            FirstPart(s) == |a| && s[..|a|] == a && s[|a| + 1..] == rest
  {
    var s := a + "\0" + rest;
    assert forall i :: 0 <= i < |a| ==> s[i] == a[i];
    assert s[|a|] == '\0';
  }

  lemma Associates(a: string, b: string, c: string)
    ensures (a + b) + c == a + (b + c)
  {
  }

  lemma JoinedThenRest(ss: seq<string>, rest: string)
    requires |ss| > 0
    ensures Joined(ss) + rest == Ended(ss[0]) + (Joined(ss[1..]) + rest)
  {
    hide Ended;
    Associates(Ended(ss[0]), Joined(ss[1..]), rest);
  }

  // Splitting off the first string.
  lemma SplitFirst(a: string, rest: string, n: nat)
    requires Lacks(a, {'\0'})
    ensures Split(Ended(a) + rest, n + 1) == [a] + Split(rest, n)
  {
    FirstPartIs(a, rest);
    hide FirstPart, Lacks;
  }

  lemma HeadAndTail(ss: seq<string>)
    requires |ss| > 0
    ensures ss == [ss[0]] + ss[1..]
  {
  }

  predicate NoNuls(ss: seq<string>) {
    forall i :: 0 <= i < |ss| ==> Lacks(ss[i], {'\0'})
  }

  lemma NoNulsParts(ss: seq<string>)
    requires NoNuls(ss) && |ss| > 0
    ensures Lacks(ss[0], {'\0'}) && NoNuls(ss[1..])
  {
    hide Lacks;
  }

  // One string more.
  lemma SplitStep(ss: seq<string>, rest: string)
    requires |ss| > 0 && Lacks(ss[0], {'\0'})
    requires Split(Joined(ss[1..]) + rest, |ss| - 1) == ss[1..]
    ensures Split(Joined(ss) + rest, |ss|) == ss
  {
    hide *;
    JoinedThenRest(ss, rest);
    SplitFirst(ss[0], Joined(ss[1..]) + rest, |ss| - 1);
    HeadAndTail(ss);
  }

  lemma {:induction false} SplitInvertsJoined(ss: seq<string>, rest: string)
    requires NoNuls(ss)
    ensures Split(Joined(ss) + rest, |ss|) == ss
    decreases |ss|
  {
    hide Joined, NoNuls, FirstPart;
    if |ss| > 0 {
      NoNulsParts(ss);
      SplitInvertsJoined(ss[1..], rest);
      SplitStep(ss, rest);
    }
  }

  /** Splitting the two buffers at NUL recovers the pairs. */
  lemma ObjectRoundTrip(pairs: seq<Pair>, keyRest: string, valueRest: string)
    requires |pairs| > 0 && Plain(pairs)
    ensures var p := Read(Printed(pairs)).value;
            var keys := Split(p.keys + keyRest, |pairs|);
            var values := Split(p.values + valueRest, |pairs|);
            && |keys| == |values| == |pairs|
            && forall i :: 0 <= i < |pairs| ==> keys[i] == pairs[i].key && values[i] == pairs[i].value
  {
    PrintedObjectReads(pairs);
    assert NoNuls(Keys(pairs)) && NoNuls(Values(pairs));
    SplitInvertsJoined(Keys(pairs), keyRest);
    SplitInvertsJoined(Values(pairs), valueRest);
  }

  /** An object of no pairs does not read as empty: its brace becomes a key. */
  lemma EmptyObjectReadsAsKey()
    ensures Read("{}") == Some(Progress(false, "}", ""))
  {
    var start := Progress(false, "", "");
    assert "{}"[1..] == ['}'];
    FeedOne(start, '}', false);
    assert "" + ['}'] == "}";
  }

  // What the reader never puts into the key and the value buffer.
  predicate Clean(p: Progress) {
    Lacks(p.keys, {':', '\r', '\n'}) && Lacks(p.values, {',', '}', '\r', '\n'})
  }

  lemma FeedIsClean(p: Progress, c: char)
    requires Clean(p)
    ensures Clean(Feed(p, c, false))
  {
  }

  lemma {:induction false} FeedAllIsClean(p: Progress, text: string)
    requires Clean(p)
    ensures Clean(FeedAll(p, text, false))
    decreases |text|
  {
    if |text| > 0 {
      hide Clean, Feed;
      FeedIsClean(p, text[0]);
      FeedAllIsClean(Feed(p, text[0], false), text[1..]);
    }
  }

  lemma LacksParts(a: string, b: string, banned: set<char>)
    requires Lacks(a + b, banned)
    ensures Lacks(a, banned) && Lacks(b, banned)
  {
    forall i | 0 <= i < |a|
      ensures a[i] !in banned
    {
      assert (a + b)[i] == a[i];
    }
    forall i | 0 <= i < |b|
      ensures b[i] !in banned
    {
      assert (a + b)[|a| + i] == b[i];
    }
  }

  lemma {:induction false} LacksJoined(ss: seq<string>, banned: set<char>, i: nat)
    requires Lacks(Joined(ss), banned) && i < |ss|
    ensures Lacks(ss[i], banned)
    decreases |ss|
  {
    hide Lacks;
    LacksParts(Ended(ss[0]), Joined(ss[1..]), banned);
    if i == 0 {
      LacksParts(ss[0], "\0", banned);
    } else {
      LacksJoined(ss[1..], banned, i - 1);
    }
  }

  // Keys and values that a C string can hold.
  predicate WithoutNuls(pairs: seq<Pair>) {
    forall i :: 0 <= i < |pairs| ==> Lacks(pairs[i].key, {'\0'}) && Lacks(pairs[i].value, {'\0'})
  }

  lemma LacksBoth(s: string, a: set<char>, b: set<char>)
    requires Lacks(s, a) && Lacks(s, b)
    ensures Lacks(s, a + b)
  {
  }

  // Pairs that were read back held none of the characters the reader takes away.
  lemma ReadBackIsPlain(pairs: seq<Pair>)
    requires WithoutNuls(pairs) && Clean(Progress(false, Joined(Keys(pairs)), Joined(Values(pairs))))
    ensures Plain(pairs)
  {
    forall i | 0 <= i < |pairs|
      ensures Lacks(pairs[i].key, {':', '\r', '\n', '\0'}) && Lacks(pairs[i].value, {',', '}', '\r', '\n', '\0'})
    {
      LacksJoined(Keys(pairs), {':', '\r', '\n'}, i);
      LacksJoined(Values(pairs), {',', '}', '\r', '\n'}, i);
      LacksBoth(pairs[i].key, {':', '\r', '\n'}, {'\0'});
      LacksBoth(pairs[i].value, {',', '}', '\r', '\n'}, {'\0'});
      assert {':', '\r', '\n'} + {'\0'} == {':', '\r', '\n', '\0'};
      assert {',', '}', '\r', '\n'} + {'\0'} == {',', '}', '\r', '\n', '\0'};
      hide Lacks, Joined;
    }
  }

  lemma PrintedIsReadClean(pairs: seq<Pair>)
    ensures Read(Printed(pairs)).Some? && Clean(Read(Printed(pairs)).value)
  {
    FeedAllIsClean(Progress(false, "", ""), Printed(pairs)[1..]);
    hide FeedAll;
  }

  /** Of all pairs of C strings, a printed object reads as its keys and values if
      and only if there is a pair, no key holds a ':', no value a ',' or a '}',
      and none of them a line end. */
  lemma ObjectReadsExactly(pairs: seq<Pair>)
    requires WithoutNuls(pairs)
    ensures Read(Printed(pairs)) == Some(Progress(false, Joined(Keys(pairs)), Joined(Values(pairs)))) <==>
            |pairs| > 0 && Plain(pairs)
  {
    hide Read, Printed, Plain, WithoutNuls, Clean, Joined, Keys, Values;
    EmptyObjectReadsAsKey();
    NothingPrinted();
    PrintedIsReadClean(pairs);
    if Read(Printed(pairs)) == Some(Progress(false, Joined(Keys(pairs)), Joined(Values(pairs)))) {
      ReadBackIsPlain(pairs);
    }
    if |pairs| > 0 && Plain(pairs) { PrintedObjectReads(pairs); }
  }

  /** A key with a ':' ends there: the rest of it is read as part of the value. */
  lemma ColonEndsKey()
    ensures Read(Printed([Pair("a:b", "c")])) == Some(Progress(false, "a\0", "b:c\0"))
  {
    var given, read := [Pair("a:b", "c")], [Pair("a", "b:c")];
    assert Printed(given) == "{a:b:c}" == Printed(read);
    PrintedObjectReads(read);
    assert Keys(read) == ["a"] && Values(read) == ["b:c"];
    assert Joined(["a"]) == "a\0" && Joined(["b:c"]) == "b:c\0";
  }

  lemma NothingPrinted()
    ensures Printed([]) == "{}" && Joined(Keys([])) == ""
  {
  }

  // ------------------------------------------------------------------
  // Arrays and line ends
  // ------------------------------------------------------------------

  lemma {:induction false} ArrayIgnoresRest(p: Progress, rest: string)
    requires !p.probing
    ensures FeedAll(p, rest, true) == p
    decreases |rest|
  {
    if |rest| > 0 { ArrayIgnoresRest(p, rest[1..]); }
  }

  /** Of an array only the first element is read, whatever follows it. */
  lemma ArrayReadsFirstElement(element: string, end: char, rest: string)
    requires Lacks(element, {',', ']', '\r', '\n'}) && (end == ',' || end == ']')
    ensures Read("[" + element + [end] + rest) == Some(Progress(false, "", element + "\0"))
  {
    var start := Progress(true, "", "");
    assert ("[" + element + [end] + rest)[1..] == (element + [end]) + rest;
    FeedAllConcat(start, element + [end], rest, true);
    FeedAllConcat(start, element, [end], true);
    FeedValue(start, element, true);
    assert "" + element == element;
    FeedOne(Progress(true, "", element), end, true);
    ArrayIgnoresRest(Progress(false, "", element + "\0"), rest);
  }

  function WithoutNewlines(s: string): string {
    if s == "" then "" else (if IsNewline(s[0]) then "" else [s[0]]) + WithoutNewlines(s[1..])
  }

  /** Line ends anywhere after the first character change nothing. */
  lemma {:induction false} NewlinesAreIgnored(p: Progress, text: string, inArray: bool)
    ensures FeedAll(p, text, inArray) == FeedAll(p, WithoutNewlines(text), inArray)
    decreases |text|
  {
    if |text| > 0 {
      var rest := WithoutNewlines(text[1..]);
      NewlinesAreIgnored(Feed(p, text[0], inArray), text[1..], inArray);
      if IsNewline(text[0]) {
        assert "" + rest == rest;
      } else {
        assert ([text[0]] + rest)[1..] == rest;
      }
    }
  }
}
