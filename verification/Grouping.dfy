/** `Grouper` of `basecode.cpp`: separators between groups of characters, and a terminator. */
module Grouping {
  import opened Numbers
  import opened Bytes
  import opened BaseN
  import opened DecodingTable

  /** A separator goes before every `size`-th character except the first. */
  ghost function Grouped(text: seq<byte>, size: nat, separator: seq<byte>): (r: seq<byte>) {
    if text == [] then []
    else
      var n := |text| - 1;
      var gap := if size > 0 && n > 0 && n % size == 0 then separator else [];
      Grouped(text[..n], size, separator) + gap + [text[n]]
  }

  /** Within a group, or without groups, characters pass unchanged. */
  lemma {:induction false} GroupedRun(text: seq<byte>, run: seq<byte>, size: nat, separator: seq<byte>, groups: nat,
                                      counter: nat)
    requires size > 0 ==> |text| == groups * size + counter && counter + |run| <= size && (counter > 0 || text == [])
    ensures Grouped(text + run, size, separator) == Grouped(text, size, separator) + run
    decreases |run|
  {
    if run == [] {
      assert text + run == text;
    } else {
      var n := |run| - 1;
      GroupedRun(text, run[..n], size, separator, groups, counter);
      assert (text + run)[..|text + run| - 1] == text + run[..n];
      if size > 0 {
        InsideGroup(|text| + n, size, groups, counter + n);
      }
      assert run == run[..n] + [run[n]];
      assert Grouped(text + run[..n], size, separator) + [] == Grouped(text + run[..n], size, separator);
    }
  }

  lemma {:induction false} InsideGroup(n: nat, size: nat, groups: nat, counter: nat)
    requires n == groups * size + counter && counter < size
    ensures n % size == counter
  {
    DivUnique(n, size, groups, counter);
  }

  /** After a full group the next character brings a separator. */
  lemma {:induction false} GroupedNext(text: seq<byte>, c: byte, size: nat, separator: seq<byte>, groups: nat)
    requires size > 0 && |text| == groups * size + size
    ensures Grouped(text + [c], size, separator) == Grouped(text, size, separator) + separator + [c]
  {
    assert |text| == (groups + 1) * size + 0;
    InsideGroup(|text|, size, groups + 1, 0);
    assert (text + [c])[..|text|] == text;
  }

  /** A run that starts a new group. */
  lemma {:induction false} GroupedNewRun(text: seq<byte>, run: seq<byte>, size: nat, separator: seq<byte>, groups: nat)
    requires size > 0 && |text| == groups * size + size && 1 <= |run| <= size
    ensures Grouped(text + run, size, separator) == Grouped(text, size, separator) + separator + run
  {
    hide Grouped;
    GroupedNext(text, run[0], size, separator, groups);
    assert |text + [run[0]]| == (groups + 1) * size + 1;
    GroupedRun(text + [run[0]], run[1..], size, separator, groups + 1, 1);
    assert text + [run[0]] + run[1..] == text + run;
    assert [run[0]] + run[1..] == run;
    assert Grouped(text, size, separator) + separator + [run[0]] + run[1..]
       == Grouped(text, size, separator) + separator + run;
  }

  class Grouper {
    const groupSize: nat
    const separator: seq<byte>
    const terminator: seq<byte>
    var counter: nat
    var output: seq<byte>
    ghost var before: seq<byte>
    ghost var message: seq<byte>
    ghost var groups: nat

    ghost predicate Valid()
      reads this
    {
      && output == before + Grouped(message, groupSize, separator)
      && (groupSize > 0 ==> |message| == groups * groupSize + counter && counter <= groupSize && (counter == 0 ==> message == []))
    }

    constructor (groupSize: nat, separator: seq<byte>, terminator: seq<byte>)
      ensures Valid() && message == [] && before == output == []
      ensures this.groupSize == groupSize && this.separator == separator && this.terminator == terminator
    {
      this.groupSize, this.separator, this.terminator := groupSize, separator, terminator;
      counter, output, before, message, groups := 0, [], [], [], 0;
    }

    /** One turn of the loop: a separator if the group is full, then as much as the group takes. */
    method PutRun(begin: seq<byte>, position: nat) returns (len: nat)
      requires Valid() && groupSize > 0 && position < |begin|
      modifies this
      ensures Valid() && before == old(before) && 1 <= len <= |begin| - position
      ensures message == old(message) + begin[position..position + len]
    {
      hide Grouped;
      ghost var fresh' := counter == groupSize;
      if counter == groupSize {
        output := output + separator;
        counter := 0;
      }
      len := if |begin| - position <= groupSize - counter then |begin| - position else groupSize - counter;
      ghost var run := begin[position..position + len];
      output := output + begin[position..position + len];
      counter := counter + len;
      if fresh' {
        GroupedNewRun(message, run, groupSize, separator, groups);
        assert (groups + 1) * groupSize == groups * groupSize + groupSize;
        groups := groups + 1;
      } else {
        GroupedRun(message, run, groupSize, separator, groups, counter - len);
      }
      message := message + run;
      assert output == before + Grouped(message, groupSize, separator);
    }

    method Put2(begin: seq<byte>, messageEnd: bool)
      requires Valid()
      modifies this
      ensures Valid()
      ensures !messageEnd ==> message == old(message) + begin && before == old(before)
      ensures messageEnd ==>
                && output == old(before) + Grouped(old(message) + begin, groupSize, separator) + terminator
                && before == output && message == []
    {
      hide Grouped;
      if groupSize > 0 {
        var position := 0;
        while position < |begin|
          invariant 0 <= position <= |begin| && Valid()
          invariant message == old(message) + begin[..position] && before == old(before)
        {
          var len := PutRun(begin, position);
          assert begin[..position] + begin[position..position + len] == begin[..position + len];
          position := position + len;
        }
        assert begin[..position] == begin;
      } else {
        GroupedRun(message, begin, groupSize, separator, 0, 0);
        output := output + begin;
        message := message + begin;
      }
      if messageEnd {
        output := output + terminator;
        counter := 0;
        before, message, groups := output, [], 0;
        GroupedNone(groupSize, separator);
        assert before + [] == before;
      }
    }
  }

  lemma {:induction false} GroupedNone(size: nat, separator: seq<byte>)
    ensures Grouped([], size, separator) == []
  {
  }

  ghost predicate AllSkipped(lookup: seq<int>, text: seq<byte>)
    requires |lookup| == 256
  {
    forall i :: 0 <= i < |text| ==> Skipped(lookup, text[i])
  }

  /** Separators the decoder skips do not change what it reads. */
  lemma {:induction false} GroupedValues(lookup: seq<int>, text: seq<byte>, size: nat, separator: seq<byte>)
    requires |lookup| == 256 && AllSkipped(lookup, separator)
    ensures Values(lookup, Grouped(text, size, separator)) == Values(lookup, text)
  {
    hide Values, Skipped;
    if text == [] {
      ValuesSkipped(lookup, []);
    } else {
      var n := |text| - 1;
      var head := Grouped(text[..n], size, separator);
      var gap := if size > 0 && n > 0 && n % size == 0 then separator else [];
      GroupedValues(lookup, text[..n], size, separator);
      TerminatorValues(lookup, head, gap);
      ValuesSplit(lookup, head + gap, [text[n]]);
      ValuesSplit(lookup, text[..n], [text[n]]);
      assert text[..n] + [text[n]] == text;
    }
  }

  ghost predicate AllOutside(alphabet: seq<byte>, caseInsensitive: bool, text: seq<byte>) {
    forall i :: 0 <= i < |text| ==> Outside(alphabet, caseInsensitive, text[i])
  }

  lemma {:induction false} OutsideAreSkipped(lookup: seq<int>, alphabet: seq<byte>, caseInsensitive: bool,
                                             text: seq<byte>)
    requires IsTable(lookup, alphabet, caseInsensitive) && |alphabet| <= 256
             && AllOutside(alphabet, caseInsensitive, text)
    ensures AllSkipped(lookup, text)
  {
    hide Outside, Skipped;
    forall i | 0 <= i < |text| ensures Skipped(lookup, text[i]) {
      OutsideIsSkipped(lookup, alphabet, caseInsensitive, text[i]);
    }
  }

  /** Encoding, grouping and decoding give back every message. */
  lemma {:induction false} CodecRoundTrip(alphabet: seq<byte>, lookup: seq<int>, caseInsensitive: bool, b: nat,
                                          blockSize: nat,
                                          padding: int, size: nat, separator: seq<byte>, terminator: seq<byte>, data: seq<byte>)
    requires 1 <= b <= 7 && blockSize >= 1 && Shl(1, b) <= |alphabet| <= 256 && -1 <= padding < 256
    requires IsTable(lookup, alphabet, caseInsensitive) && Distinct(alphabet, caseInsensitive)
    requires padding == -1 || Outside(alphabet, caseInsensitive, padding)
    requires AllOutside(alphabet, caseInsensitive, separator) && AllOutside(alphabet, caseInsensitive, terminator)
    ensures Decoded(lookup, b, Grouped(Encoded(alphabet, b, blockSize, padding, data), size, separator) + terminator)
            == data
  {
    hide Grouped, Encoded, Values, Shl, Inverts, AllSkipped, AllOutside, Outside, Distinct;
    var text := Encoded(alphabet, b, blockSize, padding, data);
    TableInverts(lookup, alphabet, caseInsensitive, padding);
    OutsideAreSkipped(lookup, alphabet, caseInsensitive, separator);
    OutsideAreSkipped(lookup, alphabet, caseInsensitive, terminator);
    GroupedValues(lookup, text, size, separator);
    TerminatorValues(lookup, Grouped(text, size, separator), terminator);
    DecodeEncode(alphabet, lookup, b, blockSize, padding, data);
  }

  lemma {:induction false} TerminatorValues(lookup: seq<int>, text: seq<byte>, terminator: seq<byte>)
    requires |lookup| == 256 && AllSkipped(lookup, terminator)
    ensures Values(lookup, text + terminator) == Values(lookup, text)
  {
    ValuesSplit(lookup, text, terminator);
    ValuesSkipped(lookup, terminator);
  }

  lemma {:induction false} OneGroup(text: seq<byte>, size: nat, separator: seq<byte>)
    requires size > 0 && |text| <= size
    ensures Grouped(text, size, separator) == text
  {
    hide Grouped;
    GroupedNone(size, separator);
    GroupedRun([], text, size, separator, 0, 0);
    assert [] + text == text;
  }

  /** From the front: a whole group, a separator, and the rest in groups; `OneGroup` says how it ends. */
  lemma {:induction false} GroupedFront(text: seq<byte>, size: nat, separator: seq<byte>)
    requires size > 0 && |text| > size
    ensures Grouped(text, size, separator) == text[..size] + separator + Grouped(text[size..], size, separator)
    decreases |text|
  {
    hide Grouped;
    var n, c := |text| - 1, [text[|text| - 1]];
    var back := text[size..];
    GroupedStep(text, size, separator);
    if n == size {
      DivUnique(size, size, 1, 0);
      OneGroup(text[..n], size, separator);
      OneGroup(back, size, separator);
      assert back == c;
    } else {
      var gap := if n % size == 0 then separator else [];
      GroupedFront(text[..n], size, separator);
      GroupedStep(back, size, separator);
      SameGap(n, size);
      assert text[..n][..size] == text[..size] && text[..n][size..] == back[..|back| - 1];
      var g := Grouped(back[..|back| - 1], size, separator);
      assert text[..size] + separator + g + gap + c == text[..size] + separator + (g + gap + c);
    }
  }

  lemma {:induction false} SameGap(n: nat, size: nat)
    requires n > size > 0
    ensures n % size == 0 <==> (n - size) % size == 0
  {
    var q, r := n / size, n % size;
    assert n - size == (q - 1) * size + r;
    DivUnique(n - size, size, q - 1, r);
  }

  lemma {:induction false} GroupedStep(text: seq<byte>, size: nat, separator: seq<byte>)
    requires text != []
    ensures var n := |text| - 1;
            var gap := if size > 0 && n > 0 && n % size == 0 then separator else [];
            Grouped(text, size, separator) == Grouped(text[..n], size, separator) + gap + [text[n]]
  {
  }
}
