/** Identifiers as paths: segments separated by single colons, where a doubled
    colon belongs to a segment and a leading single colon makes a path absolute. */
module Identifiers {
  import opened Spans
  import opened Ltrf

  datatype Identifier = Identifier(absolute: bool, path: seq<string>, name: string)

  predicate PairAt(s: string, i: nat) {
    i + 1 < |s| && s[i] == ':' && s[i + 1] == ':'
  }

  /** The parts from `i` on, the first of them continuing `acc`. */
  function SplitFrom(s: string, i: nat, acc: string): seq<string>
    requires i <= |s|
    decreases |s| - i
  {
    if i == |s| then (if acc != "" then [acc] else [])
    else if PairAt(s, i) then SplitFrom(s, i + 2, acc + "::")
    else if s[i] == ':' then [acc] + SplitFrom(s, i + 1, "")
    else SplitFrom(s, i + 1, acc + [s[i]])
  }

  /** The last part is the name; an empty part before all others means absolute. */
  function Assemble(parts: seq<string>): Result<Identifier> {
    if parts == [] then Failure("Malformed identifier")
    else
      var front, name := parts[..|parts| - 1], parts[|parts| - 1];
      if front != [] && front[0] == "" then Success(Identifier(true, front[1..], name))
      else Success(Identifier(false, front, name))
  }

  function Parse(s: string): Result<Identifier> {
    if s == "" then Failure("assertion failed") else Assemble(SplitFrom(s, 0, ""))
  }

  method ParseIdentifier(idStr: string) returns (r: Result<Identifier>)
    ensures r == Parse(idStr)
  {
    if idStr == "" {
      return Failure("assertion failed");
    }
    ghost var all := SplitFrom(idStr, 0, "");
    var parts: seq<string> := [];
    var acc := "";
    var i := 0;
    while i < |idStr|
      invariant 0 <= i <= |idStr|
      invariant all == parts + SplitFrom(idStr, i, acc)
    {
      if i + 1 < |idStr| && idStr[i] == ':' && idStr[i + 1] == ':' {
        acc := acc + "::";
        i := i + 2;
      } else if idStr[i] == ':' {
        assert parts + ([acc] + SplitFrom(idStr, i + 1, "")) == parts + [acc] + SplitFrom(idStr, i + 1, "");
        parts := parts + [acc];
        acc := "";
        i := i + 1;
      } else {
        acc := acc + [idStr[i]];
        i := i + 1;
      }
    }
    if acc != "" {
      parts := parts + [acc];
    } else {
      assert parts + [] == parts;
    }
    if |parts| == 0 {
      return Failure("Malformed identifier");
    }
    var name := parts[|parts| - 1];
    parts := parts[..|parts| - 1];
    var absolute := false;
    if |parts| > 0 && parts[0] == "" {
      absolute := true;
      parts := parts[1..];
    }
    r := Success(Identifier(absolute, parts, name));
  }

  function JoinAll(segments: seq<string>): string {
    if segments == [] then ""
    else if |segments| == 1 then segments[0]
    else segments[0] + ":" + JoinAll(segments[1..])
  }

  function Segments(id: Identifier): (r: seq<string>)
    ensures r != []
  {
    id.path + [id.name]
  }

  /** How an identifier is written. */
  function Print(id: Identifier): string {
    (if id.absolute then ":" else "") + JoinAll(Segments(id))
  }

  /** Read from the left, colons come in pairs. */
  predicate Paired(s: string)
    decreases |s|
  {
    s == "" || (if s[0] == ':' then |s| > 1 && s[1] == ':' && Paired(s[2..]) else Paired(s[1..]))
  }

  predicate StartsPlain(s: string) { s != "" && s[0] != ':' }

  /** Segments are not empty, have their colons in pairs, and none that follows a
      separator starts with one. */
  predicate WellFormed(id: Identifier) {
    var segments := Segments(id);
    forall k :: 0 <= k < |segments| ==>
      segments[k] != "" && Paired(segments[k]) && (k > 0 || id.absolute ==> StartsPlain(segments[k]))
  }

  /** A segment is read whole. */
  lemma {:induction false} SegmentReads(s: string, i: nat, acc: string, segment: string)
    requires At(s, i, segment) && Paired(segment)
    ensures SplitFrom(s, i, acc) == SplitFrom(s, i + |segment|, acc + segment)
    decreases |segment|
  {
    if segment == "" {
      assert acc + segment == acc;
    } else {
      var k := if segment[0] == ':' then 2 else 1;
      assert segment == segment[..k] + segment[k..];
      AtConcat(s, i, segment[..k], segment[k..]);
      assert s[i + 0] == segment[0];
      assert k == 2 ==> s[i + 1] == segment[1];
      SegmentReads(s, i + k, acc + segment[..k], segment[k..]);
      assert acc + segment[..k] + segment[k..] == acc + segment;
      assert segment[..k] == if k == 2 then "::" else [s[i]];
    }
  }

  /** A list of segments is read back, up to the end of the string. */
  lemma {:induction false} SegmentsRead(s: string, i: nat, segments: seq<string>)
    requires segments != [] && At(s, i, JoinAll(segments)) && i + |JoinAll(segments)| == |s|
    requires forall k :: 0 <= k < |segments| ==>
               segments[k] != "" && Paired(segments[k]) && (k > 0 ==> StartsPlain(segments[k]))
    ensures SplitFrom(s, i, "") == segments
    decreases |segments|
  {
    hide Paired;
    var first, rest := segments[0], segments[1..];
    assert "" + first == first;
    if rest == [] {
      SegmentReads(s, i, "", first);
      assert segments == [first];
    } else {
      var j := i + |first|;
      AtConcat(s, i, first + ":", JoinAll(rest));
      AtConcat(s, i, first, ":");
      AtHead(s, j, ":");
      AtHead(s, j + 1, JoinAll(rest));
      JoinHead(rest);
      assert StartsPlain(segments[1]);
      SegmentReads(s, i, "", first);
      assert !PairAt(s, j);
      SegmentsRead(s, j + 1, rest);
      assert segments == [first] + rest;
    }
  }

  lemma JoinHead(segments: seq<string>)
    requires segments != [] && segments[0] != ""
    ensures JoinAll(segments) != "" && JoinAll(segments)[0] == segments[0][0]
  {
  }

  lemma AssembleSegments(id: Identifier)
    requires WellFormed(id)
    ensures Assemble(if id.absolute then [""] + Segments(id) else Segments(id)) == Success(id)
  {
    var parts := if id.absolute then [""] + Segments(id) else Segments(id);
    assert parts[|parts| - 1] == id.name;
    assert parts[..|parts| - 1] == if id.absolute then [""] + id.path else id.path;
    if !id.absolute && id.path != [] {
      assert Segments(id)[0] == id.path[0];
    }
  }

  lemma PrintReads(id: Identifier)
    requires WellFormed(id)
    ensures Parse(Print(id)) == Success(id)
  {
    var s, segments := Print(id), Segments(id);
    AtSlice(s, 0, s);
    AssembleSegments(id);
    JoinHead(segments);
    if id.absolute {
      AtConcat(s, 0, ":", JoinAll(segments));
      AtHead(s, 0, ":");
      AtHead(s, 1, JoinAll(segments));
      assert StartsPlain(segments[0]);
      assert !PairAt(s, 0);
      SegmentsRead(s, 1, segments);
      assert SplitFrom(s, 0, "") == [""] + segments;
    } else {
      assert s == JoinAll(segments);
      SegmentsRead(s, 0, segments);
    }
  }

  lemma {:induction false} PairedAppend(s: string, t: string)
    requires Paired(s) && Paired(t)
    ensures Paired(s + t)
    decreases |s|
  {
    if s == "" {
      assert s + t == t;
    } else {
      var k := if s[0] == ':' then 2 else 1;
      assert (s + t)[k..] == s[k..] + t;
      PairedAppend(s[k..], t);
    }
  }

  lemma PairedOne(c: char)
    requires c != ':'
    ensures Paired([c]) && Paired("::")
  {
    assert [c][1..] == "" && "::"[2..] == "";
  }

  /** The parts of any string: colons in pairs, and after the first part, none that
      is empty or starts with a colon. */
  lemma {:induction false} PartsAre(s: string, i: nat, acc: string)
    requires i <= |s| && Paired(acc)
    ensures var parts := SplitFrom(s, i, acc);
            forall k :: 0 <= k < |parts| ==> Paired(parts[k]) && (k > 0 ==> StartsPlain(parts[k]))
    ensures acc != "" || CharAfter(s, i) ==>
              (SplitFrom(s, i, acc) != [] && SplitFrom(s, i, acc)[0] != ""
               && (if acc != "" then SplitFrom(s, i, acc)[0][0] == acc[0] else StartsPlain(SplitFrom(s, i, acc)[0])))
    decreases |s| - i
  {
    hide Paired;
    PairedOne('a');
    if i < |s| {
      if PairAt(s, i) {
        PairedAppend(acc, "::");
        PartsAre(s, i + 2, acc + "::");
      } else if s[i] == ':' {
        EmptyIsPaired();
        PartsAre(s, i + 1, "");
        var rest := SplitFrom(s, i + 1, "");
        assert i + 1 < |s| ==> CharAfter(s, i + 1);
        assert forall k :: 0 < k < |[acc] + rest| ==> ([acc] + rest)[k] == rest[k - 1];
      } else {
        PairedOne(s[i]);
        PairedAppend(acc, [s[i]]);
        PartsAre(s, i + 1, acc + [s[i]]);
      }
    }
  }

  /** A character that is no colon comes next. */
  predicate CharAfter(s: string, i: nat) { i < |s| && s[i] != ':' }

  lemma EmptyIsPaired()
    ensures Paired("")
  {
  }

  lemma ReadsMeansWellFormed(id: Identifier)
    requires Parse(Print(id)) == Success(id)
    ensures WellFormed(id)
  {
    hide Paired, SplitFrom;
    var s := Print(id);
    var parts := SplitFrom(s, 0, "");
    EmptyIsPaired();
    PartsAre(s, 0, "");
    var segments := Segments(id);
    assert segments == if id.absolute then parts[1..] else parts by {
      assert parts == parts[..|parts| - 1] + [parts[|parts| - 1]];
    }
    if !id.absolute {
      assert |parts| == 1 ==> s == parts[0];
    }
  }

  /** Printing and parsing an identifier gives it back exactly when it is well formed. */
  lemma RoundTripExactly(id: Identifier)
    ensures Parse(Print(id)) == Success(id) <==> WellFormed(id)
  {
    hide Parse, Print, WellFormed;
    if WellFormed(id) {
      PrintReads(id);
    }
    if Parse(Print(id)) == Success(id) {
      ReadsMeansWellFormed(id);
    }
  }

  lemma {:induction false} SomePart(s: string, i: nat, acc: string)
    requires i <= |s| && (i < |s| || acc != "")
    ensures SplitFrom(s, i, acc) != []
    decreases |s| - i
  {
    if i < |s| {
      if PairAt(s, i) {
        SomePart(s, i + 2, acc + "::");
      } else if s[i] != ':' {
        SomePart(s, i + 1, acc + [s[i]]);
      }
    }
  }

  /** Only the empty string is rejected. */
  lemma ParsesExactlyNonEmpty(s: string)
    ensures Parse(s).Success? <==> s != ""
  {
    if s != "" {
      SomePart(s, 0, "");
    }
  }

  /** The string is cut at single colons into these parts: colons in a part are in pairs,
      and no part but the first starts with one. A colon at the very end cuts off
      nothing. */
  predicate Splits(s: string, parts: seq<string>) {
    && parts != []
    && (forall k :: 0 <= k < |parts| ==> Paired(parts[k]) && (k > 0 ==> StartsPlain(parts[k])))
    && ((s == JoinAll(parts) && parts[|parts| - 1] != "") || s == JoinAll(parts) + ":")
  }

  lemma JoinMore(first: string, rest: seq<string>)
    requires rest != []
    ensures JoinAll([first] + rest) == first + ":" + JoinAll(rest)
  {
    assert ([first] + rest)[1..] == rest;
  }

  /** Parts are read back one by one, up to the end of the string. */
  lemma {:induction false} PartsRead(s: string, i: nat, parts: seq<string>)
    requires parts != [] && At(s, i, JoinAll(parts))
    requires forall k :: 0 <= k < |parts| ==> Paired(parts[k]) && (k > 0 ==> StartsPlain(parts[k]))
    requires var e := i + |JoinAll(parts)|;
             (e == |s| && parts[|parts| - 1] != "") || (e + 1 == |s| && s[e] == ':')
    ensures SplitFrom(s, i, "") == parts
    decreases |parts|
  {
    hide Paired, StartsPlain;
    var first, rest := parts[0], parts[1..];
    var j := i + |first|;
    assert "" + first == first;
    assert parts == [first] + rest;
    if rest == [] {
      SegmentReads(s, i, "", first);
      if j < |s| {
        assert !PairAt(s, j) && SplitFrom(s, j + 1, "") == [];
      }
    } else {
      JoinMore(first, rest);
      AtConcat(s, i, first + ":", JoinAll(rest));
      AtConcat(s, i, first, ":");
      AtHead(s, j, ":");
      SegmentReads(s, i, "", first);
      assert StartsPlain(parts[1]);
      PlainHead(rest);
      AtHead(s, j + 1, JoinAll(rest));
      assert !PairAt(s, j);
      PartsRead(s, j + 1, rest);
    }
  }

  lemma PlainHead(parts: seq<string>)
    requires parts != [] && StartsPlain(parts[0])
    ensures JoinAll(parts) != "" && JoinAll(parts)[0] != ':'
  {
  }

  /** The parts that are split off spell the string. */
  lemma {:induction false} SplitSpells(s: string, i: nat, acc: string)
    requires i <= |s| && (i < |s| || acc != "")
    ensures var parts := SplitFrom(s, i, acc);
            && parts != []
            && ((acc + s[i..] == JoinAll(parts) && parts[|parts| - 1] != "") || acc + s[i..] == JoinAll(parts) + ":")
    decreases |s| - i
  {
    if i == |s| {
      assert acc + s[i..] == acc;
    } else if PairAt(s, i) {
      SplitSpells(s, i + 2, acc + "::");
      assert acc + s[i..] == (acc + "::") + s[i + 2..];
    } else if s[i] == ':' {
      if i + 1 == |s| {
        assert SplitFrom(s, i + 1, "") == [];
        assert acc + s[i..] == acc + ":";
      } else {
        SplitSpells(s, i + 1, "");
        var rest := SplitFrom(s, i + 1, "");
        JoinMore(acc, rest);
        assert acc + s[i..] == acc + ":" + ("" + s[i + 1..]);
        assert (acc + ":" + JoinAll(rest)) + ":" == acc + ":" + (JoinAll(rest) + ":");
      }
    } else {
      SplitSpells(s, i + 1, acc + [s[i]]);
      assert acc + s[i..] == (acc + [s[i]]) + s[i + 1..];
    }
  }

  lemma SplitExactly(s: string, parts: seq<string>)
    requires s != ""
    ensures SplitFrom(s, 0, "") == parts <==> Splits(s, parts)
  {
    hide Paired, StartsPlain, SplitFrom;
    EmptyIsPaired();
    PartsAre(s, 0, "");
    SplitSpells(s, 0, "");
    assert "" + s[0..] == s;
    if Splits(s, parts) {
      AtSlice(s, 0, s);
      if s == JoinAll(parts) + ":" {
        AtConcat(s, 0, JoinAll(parts), ":");
        AtHead(s, |JoinAll(parts)|, ":");
      }
      PartsRead(s, 0, parts);
    }
  }

  /** The parts an identifier is made of. */
  function PartsOf(id: Identifier): seq<string> {
    (if id.absolute then [""] else []) + id.path + [id.name]
  }

  lemma AssembleExactly(parts: seq<string>, id: Identifier)
    ensures Assemble(parts) == Success(id) <==>
            parts == PartsOf(id) && (!id.absolute && id.path != [] ==> id.path[0] != "")
  {
    if parts == PartsOf(id) {
      assert parts[|parts| - 1] == id.name;
      assert parts[..|parts| - 1] == (if id.absolute then [""] else []) + id.path;
      if id.absolute {
        assert parts[..|parts| - 1][1..] == id.path;
      } else {
        assert parts[..|parts| - 1] == id.path;
      }
    }
    if parts != [] {
      assert parts == parts[..|parts| - 1] + [parts[|parts| - 1]];
      if parts[..|parts| - 1] != [] {
        assert parts[..|parts| - 1] == [parts[0]] + parts[..|parts| - 1][1..];
      }
    }
  }

  /** Every string but the empty one is an identifier in one way: the parts it is cut
      into, where an empty part before others makes it absolute. */
  lemma ParsesExactly(s: string, id: Identifier)
    ensures Parse(s) == Success(id) <==>
            s != "" && Splits(s, PartsOf(id)) && (!id.absolute && id.path != [] ==> id.path[0] != "")
  {
    hide SplitFrom, Splits, Assemble, PartsOf;
    if s != "" {
      SplitExactly(s, PartsOf(id));
      AssembleExactly(SplitFrom(s, 0, ""), id);
    }
  }
}
