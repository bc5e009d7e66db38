/**
 The database connection string: put together from the configuration, and taken apart again when a
 session is opened.
 */
module ConnectionString {
  import opened Sequences
  import opened Strings
  import opened Wrappers

  // ---------------------------------------------------------------- stripping

  predicate Clean(s: string) {
    s != "" ==> !IsSpace(s[0]) && !IsSpace(s[|s| - 1])
  }

  /** r is the part of s between the white space at its ends. */
  ghost predicate StrippedTo(s: string, r: string) {
    && Clean(r)
    && exists i, j :: 0 <= i <= j <= |s| && Strips(s, i, j) && r == s[i..j]
  }

  ghost predicate Strips(s: string, i: int, j: int)
    requires 0 <= i <= j <= |s|
  {
    && (forall k | 0 <= k < i :: IsSpace(s[k]))
    && (forall k | j <= k < |s| :: IsSpace(s[k]))
  }

  function StripLeft(s: string): string {
    if s != "" && IsSpace(s[0]) then StripLeft(s[1..]) else s
  }

  function StripRight(s: string): string {
    if s != "" && IsSpace(s[|s| - 1]) then StripRight(s[..|s| - 1]) else s
  }

  function Stripped(s: string): string {
    StripRight(StripLeft(s))
  }

  method CopyStripped(s: string, first: nat, last: nat) returns (r: string)
    requires first <= last <= |s|
    ensures r == Stripped(s[first..last])
  {
    var lo, hi := first, last;
    while lo != hi && IsSpace(s[lo])
      invariant first <= lo <= hi && StripLeft(s[lo..hi]) == StripLeft(s[first..last])
      decreases hi - lo
    {
      LeftStep(s, lo, hi);
      lo := lo + 1;
    }
    ghost var left := StripLeft(s[first..last]);
    LeftEnd(s, lo, hi);
    while lo != hi && IsSpace(s[hi - 1])
      invariant lo <= hi <= last && StripRight(s[lo..hi]) == StripRight(left)
      decreases hi - lo
    {
      RightStep(s, lo, hi);
      hi := hi - 1;
    }
    RightEnd(s, lo, hi);
    return s[lo..hi];
  }

  lemma LeftStep(s: string, lo: nat, hi: nat)
    requires lo < hi <= |s| && IsSpace(s[lo])
    ensures StripLeft(s[lo..hi]) == StripLeft(s[lo + 1..hi])
  {
    assert s[lo..hi][1..] == s[lo + 1..hi];
  }

  lemma LeftEnd(s: string, lo: nat, hi: nat)
    requires lo <= hi <= |s| && (lo < hi ==> !IsSpace(s[lo]))
    ensures StripLeft(s[lo..hi]) == s[lo..hi]
  {
  }

  lemma RightStep(s: string, lo: nat, hi: nat)
    requires lo < hi <= |s| && IsSpace(s[hi - 1])
    ensures StripRight(s[lo..hi]) == StripRight(s[lo..hi - 1])
  {
    assert s[lo..hi][..hi - lo - 1] == s[lo..hi - 1];
  }

  lemma RightEnd(s: string, lo: nat, hi: nat)
    requires lo <= hi <= |s| && (lo < hi ==> !IsSpace(s[hi - 1]))
    ensures StripRight(s[lo..hi]) == s[lo..hi]
  {
  }

  lemma {:induction false} StripLeftEnds(s: string)
    ensures var r := StripLeft(s); |r| <= |s| && r == s[|s| - |r|..] && (r != "" ==> !IsSpace(r[0]))
    ensures forall k | 0 <= k < |s| - |StripLeft(s)| :: IsSpace(s[k])
  {
    if s != "" && IsSpace(s[0]) {
      StripLeftEnds(s[1..]);
      assert forall k | 1 <= k < |s| :: s[k] == s[1..][k - 1];
    }
  }

  lemma {:induction false} StripRightEnds(s: string)
    ensures var r := StripRight(s); |r| <= |s| && r == s[..|r|] && (r != "" ==> !IsSpace(r[|r| - 1]))
    ensures forall k | |StripRight(s)| <= k < |s| :: IsSpace(s[k])
  {
    if s != "" && IsSpace(s[|s| - 1]) {
      StripRightEnds(s[..|s| - 1]);
    }
  }

  lemma MiddleStripped(s: string, i: nat, l: string, r: string)
    requires i <= |s| && l == s[i..] && |r| <= |l| && r == l[..|r|] && Clean(r)
    requires (forall k | 0 <= k < i :: IsSpace(s[k])) && forall k | |r| <= k < |l| :: IsSpace(l[k])
    ensures StrippedTo(s, r)
  {
    forall k | i + |r| <= k < |s| ensures IsSpace(s[k]) {
      assert s[k] == l[k - i];
    }
    assert Strips(s, i, i + |r|) && r == s[i..i + |r|];
  }

  lemma LeftStripped(s: string) returns (i: nat, l: string)
    ensures l == StripLeft(s) && i <= |s| && l == s[i..] && (l != "" ==> !IsSpace(l[0]))
    ensures forall k | 0 <= k < i :: IsSpace(s[k])
  {
    StripLeftEnds(s);
    l := StripLeft(s);
    i := |s| - |l|;
  }

  lemma RightStripped(l: string) returns (r: string)
    ensures r == StripRight(l) && |r| <= |l| && r == l[..|r|] && (r != "" ==> !IsSpace(r[|r| - 1]))
    ensures forall k | |r| <= k < |l| :: IsSpace(l[k])
  {
    StripRightEnds(l);
    r := StripRight(l);
  }

  lemma StrippedEnds(s: string)
    ensures StrippedTo(s, Stripped(s))
  {
    var i, l := LeftStripped(s);
    var r := RightStripped(l);
    assert r != "" ==> r[0] == l[0];
    MiddleStripped(s, i, l, r);
  }

  lemma StrippedClean(s: string)
    ensures Stripped(s) == s <==> Clean(s)
  {
    StrippedEnds(s);
  }

  // ---------------------------------------------------------------- taking apart

  type Options = map<string, string>

  /** The key and the value that a piece of the string assigns, if it has an equals sign. */
  function ReadPiece(piece: string): Option<(string, string)> {
    var middle := Find(piece, 0, |piece|, '=');
    if middle == |piece| then None else Some((Stripped(piece[..middle]), Stripped(piece[middle + 1..])))
  }

  /** What the loop makes of the options when it stands at a place of the string. */
  ghost function Parsed(s: string, start: nat, options: Options, read: string -> Option<(string, string)>): Option<Options>
    requires start <= |s|
    decreases |s| - start
  {
    var finish := Find(s, start, |s|, ';');
    match read(s[start..finish])
    case None => None
    case Some((key, value)) =>
      if finish + 1 >= |s| then Some(options[key := value]) else Parsed(s, finish + 1, options[key := value], read)
  }

  /** A place from which the options that were found so far lead to the result. */
  ghost predicate LeadsTo(s: string, start: nat, options: Options, all: Option<Options>) {
    start <= |s| && Parsed(s, start, options, ReadPiece) == all
  }

  lemma BadPiece(s: string, start: nat, options: Options, all: Option<Options>)
    requires LeadsTo(s, start, options, all) && ReadPiece(s[start..Find(s, start, |s|, ';')]).None?
    ensures all == None
  {
  }

  lemma GoodPiece(s: string, start: nat, options: Options, all: Option<Options>, key: string, value: string)
    requires LeadsTo(s, start, options, all) && ReadPiece(s[start..Find(s, start, |s|, ';')]) == Some((key, value))
    ensures var finish := Find(s, start, |s|, ';');
            if finish + 1 >= |s| then all == Some(options[key := value]) else LeadsTo(s, finish + 1, options[key := value], all)
  {
  }

  /** None: a piece of the string has no equals sign. */
  method ParseOptions(s: string, defaults: Options) returns (r: Option<Options>)
    ensures r == Parsed(s, 0, defaults, ReadPiece)
  {
    ghost var all := Parsed(s, 0, defaults, ReadPiece);
    r := ParseTo(s, defaults, all);
  }

  method ParseTo(s: string, defaults: Options, ghost all: Option<Options>) returns (r: Option<Options>)
    requires LeadsTo(s, 0, defaults, all)
    ensures r == all
  {
    var options, start := defaults, 0;
    while true
      invariant 0 <= start && LeadsTo(s, start, options, all)
      decreases |s| - start
    {
      var finish := Find(s, start, |s|, ';');
      var assignment := ParsePiece(s, start, finish);
      if assignment.None? {
        BadPiece(s, start, options, all);
        return None;
      }
      GoodPiece(s, start, options, all, assignment.value.0, assignment.value.1);
      options := options[assignment.value.0 := assignment.value.1];
      if finish == |s| || finish + 1 == |s| {
        return Some(options);
      }
      start := finish + 1;
    }
  }

  method ParsePiece(s: string, start: nat, finish: nat) returns (assignment: Option<(string, string)>)
    requires start <= finish <= |s|
    ensures assignment == ReadPiece(s[start..finish])
  {
    var middle := Find(s, start, finish, '=');
    FindInSlice(s, start, finish, '=');
    if middle == finish {
      return None;
    }
    var key := CopyStripped(s, start, middle);
    var value := CopyStripped(s, middle + 1, finish);
    SliceOfSlice(s, start, finish, 0, middle - start);
    SliceOfSlice(s, start, finish, middle - start + 1, finish - start);
    return Some((key, value));
  }

  lemma FindInSlice(s: string, lo: nat, hi: nat, c: char)
    requires lo <= hi <= |s|
    ensures Find(s[lo..hi], 0, hi - lo, c) == Find(s, lo, hi, c) - lo
  {
    var i := Find(s, lo, hi, c);
    FindIs(s, lo, hi, c, i);
    FindIs(s[lo..hi], 0, hi - lo, c, i - lo);
  }

  // ---------------------------------------------------------------- pieces

  /** The pieces with semicolons between them, and one at the end if it is wanted. */
  ghost function Joined(pieces: seq<string>, closed: bool): string {
    if pieces == [] then ""
    else if |pieces| == 1 then pieces[0] + if closed then ";" else ""
    else pieces[0] + ";" + Joined(pieces[1..], closed)
  }

  /** One assignment for each piece, in order, so that the last one for a key counts. */
  ghost function Assigned(pieces: seq<string>, options: Options, read: string -> Option<(string, string)>): Option<Options> {
    if pieces == [] then Some(options)
    else
      match read(pieces[0])
      case None => None
      case Some((key, value)) => Assigned(pieces[1..], options[key := value], read)
  }

  lemma HeadPiece(s: string, n: nat, pieces: seq<string>, closed: bool)
    requires n <= |s| && pieces != [] && s[n..] == Joined(pieces, closed) && Without(pieces[0], ';')
    ensures var m := n + |pieces[0]|;
            && Find(s, n, |s|, ';') == m && s[n..m] == pieces[0]
            && if |pieces| == 1 then m + 1 >= |s| else m + 1 <= |s| && s[m + 1..] == Joined(pieces[1..], closed)
  {
    var p, rest := pieces[0], s[n..];
    var m := n + |p|;
    assert |s| == n + |rest| && rest[..|p|] == p && s[n..m] == rest[..|p|];
    assert forall k | 0 <= k < |p| :: p[k] == s[n + k];
    if m < |s| {
      assert s[m] == rest[|p|];
    }
    FindIs(s, n, |s|, ';', m);
    if |pieces| > 1 {
      assert rest[|p| + 1..] == Joined(pieces[1..], closed) && s[m + 1..] == rest[|p| + 1..];
    }
  }

  /** The parser takes a string apart into its pieces; only at the end is an empty piece passed over. */
  lemma {:induction false} PiecesParsed(
      s: string, n: nat, pieces: seq<string>, closed: bool, options: Options, read: string -> Option<(string, string)>)
    requires n <= |s| && s[n..] == Joined(pieces, closed)
    requires pieces != [] && forall p | p in pieces :: Without(p, ';')
    requires |pieces| == 1 || pieces[|pieces| - 1] != "" || closed
    ensures Parsed(s, n, options, read) == Assigned(pieces, options, read)
    decreases |pieces|
  {
    HeadPiece(s, n, pieces, closed);
    match read(pieces[0])
    case None =>
    case Some((key, value)) =>
      if |pieces| > 1 {
        JoinedNotEmpty(pieces[1..], closed);
        PiecesParsed(s, n + |pieces[0]| + 1, pieces[1..], closed, options[key := value], read);
      }
  }

  lemma JoinedNotEmpty(pieces: seq<string>, closed: bool)
    requires pieces != [] && (|pieces| > 1 || pieces[0] != "" || closed)
    ensures Joined(pieces, closed) != ""
  {
  }

  /** Every string is taken apart into pieces. */
  lemma {:induction false} EveryStringJoins(s: string) returns (pieces: seq<string>, closed: bool)
    ensures pieces != [] && forall p | p in pieces :: Without(p, ';')
    ensures |pieces| == 1 || pieces[|pieces| - 1] != "" || closed
    ensures Joined(pieces, closed) == s
    decreases |s|
  {
    var n := Find(s, 0, |s|, ';');
    FindIs(s, 0, |s|, ';', n);
    if n + 1 >= |s| {
      pieces, closed := [s[..n]], n < |s|;
    } else {
      var tail, c := EveryStringJoins(s[n + 1..]);
      pieces, closed := [s[..n]] + tail, c;
      assert pieces[1..] == tail && s == s[..n] + ";" + s[n + 1..];
    }
  }

  lemma {:induction false} AssignedExactly(pieces: seq<string>, options: Options)
    ensures Assigned(pieces, options, ReadPiece).Some? <==> forall p | p in pieces :: !Without(p, '=')
  {
    if pieces != [] {
      var p := pieces[0];
      FindIs(p, 0, |p|, '=', |p|);
      assert ReadPiece(p).None? <==> Without(p, '=');
      assert forall q :: q in pieces <==> q == p || q in pieces[1..];
      if ReadPiece(p).Some? {
        AssignedExactly(pieces[1..], options[ReadPiece(p).value.0 := ReadPiece(p).value.1]);
      }
    }
  }

  /** Opening fails on the format exactly when a piece has no equals sign. */
  lemma FormatExactly(s: string, options: Options) returns (pieces: seq<string>, closed: bool)
    ensures pieces != [] && Joined(pieces, closed) == s && forall p | p in pieces :: Without(p, ';')
    ensures Parsed(s, 0, options, ReadPiece) == Assigned(pieces, options, ReadPiece)
    ensures Parsed(s, 0, options, ReadPiece).None? <==> exists p | p in pieces :: Without(p, '=')
  {
    pieces, closed := EveryStringJoins(s);
    assert s[0..] == s;
    PiecesParsed(s, 0, pieces, closed, options, ReadPiece);
    AssignedExactly(pieces, options);
  }

  // ---------------------------------------------------------------- values

  /** What the parser can give back as a value. */
  predicate Fit(value: string) {
    Clean(value) && Without(value, ';')
  }

  lemma StrippedWithout(s: string, c: char)
    requires Without(s, c)
    ensures Without(Stripped(s), c)
  {
    StrippedEnds(s);
    var i, j :| 0 <= i <= j <= |s| && Strips(s, i, j) && Stripped(s) == s[i..j];
    var r := s[i..j];
    assert forall k | 0 <= k < |r| :: r[k] == s[i + k];
  }

  lemma ReadWithout(piece: string, c: char)
    requires Without(piece, c) && ReadPiece(piece).Some?
    ensures Without(ReadPiece(piece).value.1, c)
  {
    StrippedWithout(piece[Find(piece, 0, |piece|, '=') + 1..], c);
  }

  lemma ReadFit(piece: string)
    requires Without(piece, ';') && ReadPiece(piece).Some?
    ensures Fit(ReadPiece(piece).value.1)
  {
    ReadWithout(piece, ';');
    StrippedEnds(piece[Find(piece, 0, |piece|, '=') + 1..]);
  }

  ghost predicate AllHold(options: Options, fit: string -> bool) {
    forall k | k in options :: fit(options[k])
  }

  /** Every piece that can be cut out of the string is read as a fit value. */
  ghost predicate ReadsHold(s: string, read: string -> Option<(string, string)>, fit: string -> bool) {
    forall i, j | 0 <= i <= j <= |s| && Without(s[i..j], ';') && read(s[i..j]).Some? :: fit(read(s[i..j]).value.1)
  }

  lemma {:induction false} ParsedHolds(
      s: string, start: nat, options: Options, read: string -> Option<(string, string)>, fit: string -> bool)
    requires start <= |s| && AllHold(options, fit) && ReadsHold(s, read, fit)
    ensures var r := Parsed(s, start, options, read); r.Some? ==> AllHold(r.value, fit)
    decreases |s| - start
  {
    var finish := Find(s, start, |s|, ';');
    FindIs(s, start, |s|, ';', finish);
    var piece := s[start..finish];
    assert Without(piece, ';');
    match read(piece)
    case None =>
    case Some((key, value)) =>
      if finish + 1 < |s| {
        ParsedHolds(s, finish + 1, options[key := value], read, fit);
      }
  }

  ghost predicate AllFit(options: Options) {
    AllHold(options, Fit)
  }

  lemma ParsedFit(s: string, options: Options)
    requires AllFit(options)
    ensures var r := Parsed(s, 0, options, ReadPiece); r.Some? ==> AllFit(r.value)
  {
    forall i, j | 0 <= i <= j <= |s| && Without(s[i..j], ';') && ReadPiece(s[i..j]).Some?
      ensures Fit(ReadPiece(s[i..j]).value.1)
    {
      ReadFit(s[i..j]);
    }
    ParsedHolds(s, 0, options, ReadPiece, Fit);
  }

  /** Values of a string without NUL have none. */
  lemma ParsedNulFree(s: string, options: Options)
    requires Without(s, NUL) && AllHold(options, (v: string) => Without(v, NUL))
    ensures var r := Parsed(s, 0, options, ReadPiece); r.Some? ==> AllHold(r.value, (v: string) => Without(v, NUL))
  {
    var fit := (v: string) => Without(v, NUL);
    forall i, j | 0 <= i <= j <= |s| && Without(s[i..j], ';') && ReadPiece(s[i..j]).Some?
      ensures fit(ReadPiece(s[i..j]).value.1)
    {
      ReadWithout(s[i..j], NUL);
    }
    ParsedHolds(s, 0, options, ReadPiece, fit);
  }

  lemma ConcatWithout(s: string, t: string, c: char)
    requires Without(s, c) && Without(t, c)
    ensures Without(s + t, c)
  {
  }

  lemma {:induction false} JoinedWithout(pieces: seq<string>, closed: bool, c: char)
    requires c != ';' && forall p | p in pieces :: Without(p, c)
    ensures Without(Joined(pieces, closed), c)
  {
    if |pieces| == 1 {
      ConcatWithout(pieces[0], if closed then ";" else "", c);
    } else if |pieces| > 1 {
      assert pieces[0] in pieces;
      ConcatWithout(pieces[0], ";", c);
      JoinedWithout(pieces[1..], closed, c);
      ConcatWithout(pieces[0] + ";", Joined(pieces[1..], closed), c);
    }
  }

  /** A key without an equals sign and a value come back from the field that is printed for them. */
  lemma ReadField(key: string, value: string)
    requires Clean(key) && Without(key, '=') && Clean(value)
    ensures ReadPiece(key + "=" + value) == Some((key, value))
  {
    var p := key + "=" + value;
    FindIs(p, 0, |p|, '=', |key|);
    assert p[..|key|] == key && p[|key| + 1..] == value;
    StrippedClean(key);
    StrippedClean(value);
  }

  lemma {:induction false} StripLeftSpaces(left: string, s: string)
    requires AllSpaces(left)
    ensures StripLeft(left + s) == StripLeft(s)
  {
    if left == "" {
      assert left + s == s;
    } else {
      assert (left + s)[0] == left[0] && (left + s)[1..] == left[1..] + s;
      assert forall k | 0 <= k < |left[1..]| :: left[1..][k] == left[k + 1];
      StripLeftSpaces(left[1..], s);
    }
  }

  lemma {:induction false} StripRightSpaces(s: string, right: string)
    requires AllSpaces(right)
    ensures StripRight(s + right) == StripRight(s)
  {
    if right == "" {
      assert s + right == s;
    } else {
      var n := |right| - 1;
      assert (s + right)[|s + right| - 1] == right[n] && (s + right)[..|s + right| - 1] == s + right[..n];
      StripRightSpaces(s, right[..n]);
    }
  }

  /** White space around a clean string is all that goes. */
  lemma SpacesGo(left: string, s: string, right: string)
    requires AllSpaces(left) && Clean(s) && AllSpaces(right)
    ensures Stripped(left + s + right) == s
  {
    assert left + s + right == left + (s + right);
    StripLeftSpaces(left, s + right);
    if s == "" {
      assert s + right == right + "" == right;
      StripLeftSpaces(right, "");
    } else {
      assert (s + right)[0] == s[0];
      StripRightSpaces(s, right);
    }
  }

  lemma SpacesWithout(s: string, c: char)
    requires AllSpaces(s) && !IsSpace(c)
    ensures Without(s, c)
  {
  }

  /** White space around the key and around the value does not matter. */
  lemma ReadSpacedField(a: string, key: string, b: string, c: string, value: string, d: string)
    requires AllSpaces(a) && AllSpaces(b) && AllSpaces(c) && AllSpaces(d)
    requires Clean(key) && Without(key, '=') && Clean(value)
    ensures ReadPiece((a + key + b) + "=" + (c + value + d)) == Some((key, value))
  {
    var k, v := a + key + b, c + value + d;
    var p := k + "=" + v;
    SpacesWithout(a, '=');
    SpacesWithout(b, '=');
    ConcatWithout(a, key, '=');
    ConcatWithout(a + key, b, '=');
    assert forall i | 0 <= i < |k| :: p[i] == k[i];
    FindIs(p, 0, |p|, '=', |k|);
    assert p[..|k|] == k && p[|k| + 1..] == v;
    SpacesGo(a, key, b);
    SpacesGo(c, value, d);
  }
}
