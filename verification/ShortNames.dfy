/** 8.3 names in directory entries (make_dirfile and get_fileinfo in kern/fs/fat/fat_base.c), for 7-bit ASCII names. */
module ShortNames {
  type Text = seq<int>

  const SPACE := 0x20
  const DOT := 0x2E
  const BODY_LOWER := 0x08
  const EXT_LOWER := 0x10

  /** Characters that make_dirfile stores: visible, and none of the characters it rejects. */
  predicate Storable(c: int) {
    0x20 < c < 0x7F && c != 0x22 && !(0x2A <= c <= 0x2C) && c != DOT && c != 0x2F && !(0x3A <= c <= 0x3F) &&
    !(0x5B <= c <= 0x5D) && c != 0x7C
  }

  predicate IsUpper(c: int) {
    0x41 <= c <= 0x5A
  }

  predicate IsLower(c: int) {
    0x61 <= c <= 0x7A
  }

  function Up(c: int): int {
    if IsLower(c) then c - 0x20 else c
  }

  function Down(c: int): int {
    if IsUpper(c) then c + 0x20 else c
  }

  function UpAll(s: Text): (r: Text)
    ensures |r| == |s|
  {
    seq(|s|, i requires 0 <= i < |s| => Up(s[i]))
  }

  function DownAll(s: Text): (r: Text)
    ensures |r| == |s|
  {
    seq(|s|, i requires 0 <= i < |s| => Down(s[i]))
  }

  predicate AllStorable(s: Text) {
    forall i :: 0 <= i < |s| ==> Storable(s[i])
  }

  predicate HasLower(s: Text) {
    exists i :: 0 <= i < |s| && IsLower(s[i])
  }

  predicate HasUpper(s: Text) {
    exists i :: 0 <= i < |s| && IsUpper(s[i])
  }

  // ---- the name as a body, dots and an extension ----

  function BodyLength(s: Text): (n: nat)
    ensures n <= |s| && (forall i :: 0 <= i < n ==> s[i] != DOT) && (n < |s| ==> s[n] == DOT)
  {
    if s == [] || s[0] == DOT then 0 else 1 + BodyLength(s[1..])
  }

  function SkipDots(s: Text): (r: Text)
    ensures |r| <= |s| && r == s[|s| - |r|..] && (forall i :: 0 <= i < |s| - |r| ==> s[i] == DOT)
    ensures (r != [] ==> r[0] != DOT)
  {
    if s == [] || s[0] != DOT then s else SkipDots(s[1..])
  }

  function Body(s: Text): Text {
    s[..BodyLength(s)]
  }

  function Extension(s: Text): Text {
    SkipDots(s[BodyLength(s)..])
  }

  /** The names make_dirfile takes: up to 8 characters, then, after any number of dots, up to 3 more. */
  predicate Accepted(s: Text) {
    1 <= |Body(s)| <= 8 && AllStorable(Body(s)) && |Extension(s)| <= 3 && AllStorable(Extension(s))
  }

  function Spaces(n: nat): (r: Text)
    ensures |r| == n && forall i :: 0 <= i < n ==> r[i] == SPACE
  {
    seq(n, _ => SPACE)
  }

  function Padded(s: Text, n: nat): (r: Text)
    requires |s| <= n
    ensures |r| == n
  {
    s + Spaces(n - |s|)
  }

  /** The 11 bytes of the directory entry. */
  function Stored(s: Text): (r: Text)
    requires Accepted(s)
    ensures |r| == 11
  {
    Padded(UpAll(Body(s)), 8) + Padded(UpAll(Extension(s)), 3)
  }

  predicate AllLower(s: Text) {
    HasLower(s) && !HasUpper(s)
  }

  /** The NT flag byte: a part with lower-case letters only. */
  function NtFlags(s: Text): int {
    (if AllLower(Body(s)) then BODY_LOWER else 0) + (if AllLower(Extension(s)) then EXT_LOWER else 0)
  }

  // ---- printing ----

  /** The characters of a field up to the first space. */
  function Trim(s: Text): (r: Text)
    ensures |r| <= |s| && r == s[..|r|] && (forall i :: 0 <= i < |r| ==> r[i] != SPACE)
    ensures (|r| < |s| ==> s[|r|] == SPACE)
  {
    if s == [] || s[0] == SPACE then [] else [s[0]] + Trim(s[1..])
  }

  /** get_fileinfo: the name in a directory entry, 0x05 at the head standing for 0xE5. */
  function Printed(dir: Text, flags: int): Text
    requires |dir| == 11
  {
    var body := Trim(dir[..8]);
    var shown := if flags % 16 >= BODY_LOWER then DownAll(Heads(body)) else Heads(body);
    var ext := Trim(dir[8..]);
    if ext == [] then shown
    else shown + [DOT] + if flags % 32 >= EXT_LOWER then DownAll(ext) else ext
  }

  function Heads(s: Text): (r: Text)
    ensures |r| == |s|
  {
    seq(|s|, i requires 0 <= i < |s| => if s[i] == 0x05 then 0xE5 else s[i])
  }

  // ---- the bytes, spelled out ----

  /** The characters of names: letters, digits and these others. */
  lemma StorableChars(c: int)
    ensures Storable(c) <==>
      0x41 <= c <= 0x5A || 0x61 <= c <= 0x7A || 0x30 <= c <= 0x39 ||
      c in [0x21, 0x23, 0x24, 0x25, 0x26, 0x27, 0x28, 0x29, 0x2D, 0x40, 0x5E, 0x5F, 0x60, 0x7B, 0x7D, 0x7E]
  {
  }

  /** A name ends at a slash or a null character, its body at the first dot, and its extension begins behind the
      dots. */
  lemma NameEnds(path: Text, s: Text)
    ensures |Segment(path)| < |path| ==> path[|Segment(path)|] == 0x2F || path[|Segment(path)|] == 0
    ensures Segment(path) == path[..|Segment(path)|] && 0x2F !in Segment(path) && 0 !in Segment(path)
    ensures Body(s) == s[..|Body(s)|] && 0x2E !in Body(s) && (|Body(s)| < |s| ==> s[|Body(s)|] == 0x2E)
    ensures |Body(s)| + |Extension(s)| <= |s| && Extension(s) == s[|s| - |Extension(s)|..]
    ensures forall i :: |Body(s)| <= i < |s| - |Extension(s)| ==> s[i] == 0x2E
    ensures Extension(s) != [] ==> Extension(s)[0] != 0x2E
  {
    var rest := s[BodyLength(s)..];
    assert Extension(s) == rest[|rest| - |Extension(s)|..];
    forall i | |Body(s)| <= i < |s| - |Extension(s)|
      ensures s[i] == 0x2E
    {
      assert s[i] == rest[i - BodyLength(s)];
    }
  }

  /** The field of n characters for a part: the part in upper case, padded with spaces. */
  ghost predicate FieldOf(field: Text, part: Text, n: nat) {
    |field| == n >= |part| &&
    (forall i :: 0 <= i < |part| ==> field[i] == if 0x61 <= part[i] <= 0x7A then part[i] - 0x20 else part[i]) &&
    forall i :: |part| <= i < n ==> field[i] == 0x20
  }

  /** The part has a lower-case letter and no upper-case one. */
  ghost predicate OneCase(part: Text) {
    (exists i :: 0 <= i < |part| && 0x61 <= part[i] <= 0x7A) &&
    forall i :: 0 <= i < |part| ==> !(0x41 <= part[i] <= 0x5A)
  }

  /** The 11 bytes of an entry, and its flags. */
  lemma StoredBytes(s: Text)
    requires Accepted(s)
    ensures FieldOf(Stored(s)[..8], Body(s), 8) && FieldOf(Stored(s)[8..], Extension(s), 3)
    ensures NtFlags(s) == (if OneCase(Body(s)) then 0x08 else 0) + if OneCase(Extension(s)) then 0x10 else 0
  {
    assert Stored(s)[..8] == Padded(UpAll(Body(s)), 8) && Stored(s)[8..] == Padded(UpAll(Extension(s)), 3);
  }

  /** The field up to its first space is shown, in lower case if so flagged. */
  ghost predicate ShownFrom(shown: Text, field: Text, lower: bool) {
    |shown| <= |field| && (|shown| < |field| ==> field[|shown|] == 0x20) &&
    forall i :: 0 <= i < |shown| ==>
      field[i] != 0x20 && shown[i] == if lower && 0x41 <= field[i] <= 0x5A then field[i] + 0x20 else field[i]
  }

  lemma TrimShown(field: Text, lower: bool)
    ensures ShownFrom(if lower then DownAll(Trim(field)) else Trim(field), field, lower)
    ensures |field| > 0 ==> (Trim(field) == [] <==> field[0] == 0x20)
  {
    var t := Trim(field);
    hide Trim;
    forall i | 0 <= i < |t|
      ensures t[i] == field[i] && field[i] != 0x20
    {
    }
  }

  lemma {:induction false} TrimHeads(field: Text)
    ensures Trim(Heads(field)) == Heads(Trim(field))
  {
    if field != [] {
      assert Heads(field)[1..] == Heads(field[1..]);
      TrimHeads(field[1..]);
    }
  }

  /** A byte 0x05 of the body stands for 0xE5. */
  function HeadBytes(dir: Text): Text
    requires |dir| == 11
  {
    seq(8, i requires 0 <= i < 8 => if dir[i] == 0x05 then 0xE5 else dir[i])
  }

  /** The characters printed for an entry: the body and, behind a dot, the extension, if there is one. */
  lemma PrintedChars(dir: Text, flags: int) returns (body: Text, ext: Text)
    requires |dir| == 11
    ensures ShownFrom(body, HeadBytes(dir), flags / 8 % 2 == 1) && ShownFrom(ext, dir[8..], flags / 16 % 2 == 1)
    ensures ext == [] <==> dir[8] == 0x20
    ensures Printed(dir, flags) == body + if ext == [] then [] else [0x2E] + ext
  {
    hide Trim;
    hide ShownFrom;
    TrimShown(HeadBytes(dir), flags / 8 % 2 == 1);
    TrimShown(dir[8..], flags / 16 % 2 == 1);
    TrimHeads(dir[..8]);
    assert Heads(dir[..8]) == HeadBytes(dir);
    var tail := Trim(dir[8..]);
    body := if flags / 8 % 2 == 1 then DownAll(Trim(HeadBytes(dir))) else Trim(HeadBytes(dir));
    ext := if flags / 16 % 2 == 1 then DownAll(tail) else tail;
    BitAt(flags);
    assert tail == [] <==> dir[8] == 0x20;
  }

  lemma BitAt(flags: int)
    ensures flags % 16 >= BODY_LOWER <==> flags / 8 % 2 == 1
    ensures flags % 32 >= EXT_LOWER <==> flags / 16 % 2 == 1
  {
    HalfOf(flags, 8);
    HalfOf(flags, 16);
  }

  lemma HalfOf(x: int, b: nat)
    requires b == 8 || b == 16
    ensures x % (2 * b) >= b <==> x / b % 2 == 1
  {
    var q, m := x / (2 * b), x % (2 * b);
    assert x == 2 * b * q + m;
    if m >= b {
      assert x / b == 2 * q + 1;
    } else {
      assert x / b == 2 * q;
    }
  }

  // ---- parts ----

  lemma {:induction false} BodyLengthIs(s: Text, n: nat)
    requires n <= |s| && (forall i :: 0 <= i < n ==> s[i] != DOT) && (n < |s| ==> s[n] == DOT)
    ensures BodyLength(s) == n
  {
    if n > 0 {
      BodyLengthIs(s[1..], n - 1);
    }
  }

  /** A body without dots, a dot and an extension without dots split as they were joined. */
  lemma JoinSplits(body: Text, ext: Text)
    requires (forall i :: 0 <= i < |body| ==> body[i] != DOT) && ext != [] && ext[0] != DOT
    ensures Body(body + [DOT] + ext) == body && Extension(body + [DOT] + ext) == ext
  {
    var s := body + [DOT] + ext;
    BodyLengthIs(s, |body|);
    assert s[|body|..] == [DOT] + ext && s[..|body|] == body;
    SkipDotsOne(ext);
  }

  lemma SkipDotsOne(ext: Text)
    requires ext != [] && ext[0] != DOT
    ensures SkipDots([DOT] + ext) == ext
  {
    assert ([DOT] + ext)[1..] == ext;
  }

  lemma BodyAlone(body: Text)
    requires forall i :: 0 <= i < |body| ==> body[i] != DOT
    ensures Body(body) == body && Extension(body) == []
  {
    BodyLengthIs(body, |body|);
  }

  lemma {:induction false} TrimPadded(s: Text, n: nat)
    requires |s| <= n && forall i :: 0 <= i < |s| ==> s[i] != SPACE
    ensures Trim(Padded(s, n)) == s
  {
    var p := Padded(s, n);
    if s != [] {
      assert p[0] == s[0] && p[1..] == Padded(s[1..], n - 1);
      TrimPadded(s[1..], n - 1);
      assert s == [s[0]] + s[1..];
    } else {
      assert n > 0 ==> p[0] == SPACE;
    }
  }

  /** What is shown of a part: in lower case if that is all it had. */
  function Shown(s: Text): Text {
    if AllLower(s) then DownAll(UpAll(s)) else UpAll(s)
  }

  lemma UpStorable(c: int)
    requires Storable(c)
    ensures Storable(Up(c)) && Storable(Down(Up(c))) && Up(Down(Up(c))) == Up(c) && Up(Up(c)) == Up(c)
    ensures !IsLower(Up(c)) && !IsUpper(Down(Up(c))) && (IsLower(Down(Up(c))) <==> IsLower(c) || IsUpper(c))
  {
  }

  /** Showing a part and storing it again changes nothing. */
  lemma ShownAgain(s: Text)
    requires AllStorable(s)
    ensures |Shown(s)| == |s| && AllStorable(Shown(s)) && UpAll(Shown(s)) == UpAll(s)
    ensures (AllLower(Shown(s)) <==> AllLower(s))
  {
    forall i | 0 <= i < |s|
      ensures Storable(Shown(s)[i]) && Up(Shown(s)[i]) == Up(s[i])
    {
      UpStorable(s[i]);
    }
    assert UpAll(Shown(s)) == UpAll(s);
    if AllLower(s) {
      var i :| 0 <= i < |s| && IsLower(s[i]);
      UpStorable(s[i]);
      assert IsLower(Shown(s)[i]);
      forall j | 0 <= j < |s|
        ensures !IsUpper(Shown(s)[j])
      {
        UpStorable(s[j]);
      }
    } else {
      forall j | 0 <= j < |s|
        ensures !IsLower(Shown(s)[j])
      {
        UpStorable(s[j]);
      }
    }
  }

  /** A part is shown as it was written exactly when it did not mix cases. */
  lemma ShownSame(s: Text)
    requires AllStorable(s)
    ensures Shown(s) == s <==> !(HasLower(s) && HasUpper(s))
  {
    if HasLower(s) && HasUpper(s) {
      var i :| 0 <= i < |s| && IsLower(s[i]);
      assert Shown(s)[i] != s[i];
    } else if HasLower(s) {
      forall j | 0 <= j < |s|
        ensures Shown(s)[j] == s[j]
      {
        assert !IsUpper(s[j]);
      }
    } else {
      forall j | 0 <= j < |s|
        ensures Shown(s)[j] == s[j]
      {
        assert !IsLower(s[j]);
      }
    }
  }

  lemma StoredParts(s: Text)
    requires Accepted(s)
    ensures Trim(Stored(s)[..8]) == UpAll(Body(s)) && Trim(Stored(s)[8..]) == UpAll(Extension(s))
    ensures Heads(UpAll(Body(s))) == UpAll(Body(s))
  {
    var body, ext := UpAll(Body(s)), UpAll(Extension(s));
    forall i | 0 <= i < |body|
      ensures body[i] != SPACE && body[i] != 0x05
    {
      UpStorable(Body(s)[i]);
    }
    forall i | 0 <= i < |ext|
      ensures ext[i] != SPACE
    {
      UpStorable(Extension(s)[i]);
    }
    assert Stored(s)[..8] == Padded(body, 8) && Stored(s)[8..] == Padded(ext, 3);
    TrimPadded(body, 8);
    TrimPadded(ext, 3);
  }

  /** What an accepted name is shown as. */
  lemma PrintedParts(s: Text)
    requires Accepted(s)
    ensures Printed(Stored(s), NtFlags(s)) ==
      Shown(Body(s)) + if Extension(s) == [] then [] else [DOT] + Shown(Extension(s))
  {
    hide Stored;
    hide UpAll;
    hide DownAll;
    hide Trim;
    hide Heads;
    hide AllLower;
    hide NtFlags;
    StoredParts(s);
    FlagBits(s);
    assert UpAll(Extension(s)) == [] <==> Extension(s) == [];
  }

  lemma FlagBits(s: Text)
    ensures NtFlags(s) % 16 >= BODY_LOWER <==> AllLower(Body(s))
    ensures NtFlags(s) % 32 >= EXT_LOWER <==> AllLower(Extension(s))
  {
    hide AllLower;
  }

  lemma NoDots(s: Text)
    requires AllStorable(s)
    ensures forall i :: 0 <= i < |s| ==> s[i] != DOT
  {
  }

  lemma PrintedSplits(s: Text)
    requires Accepted(s)
    ensures var p := Printed(Stored(s), NtFlags(s));
      Body(p) == Shown(Body(s)) && Extension(p) == Shown(Extension(s))
  {
    hide Stored;
    hide Printed;
    hide Shown;
    hide Body;
    hide Extension;
    PrintedParts(s);
    ShownAgain(Body(s));
    ShownAgain(Extension(s));
    NoDots(Shown(Body(s)));
    NoDots(Shown(Extension(s)));
    if Extension(s) == [] {
      BodyAlone(Shown(Body(s)));
      assert Shown(Body(s)) + [] == Shown(Body(s));
    } else {
      JoinSplits(Shown(Body(s)), Shown(Extension(s)));
      assert Shown(Body(s)) + ([DOT] + Shown(Extension(s))) == Shown(Body(s)) + [DOT] + Shown(Extension(s));
    }
  }

  /** Printing an entry and parsing the name again gives the same 11 bytes and the same flags. */
  lemma NameRoundTrip(s: Text)
    requires Accepted(s)
    ensures var p := Printed(Stored(s), NtFlags(s));
      Accepted(p) && Stored(p) == Stored(s) && NtFlags(p) == NtFlags(s)
  {
    hide Printed;
    hide Shown;
    hide Body;
    hide Extension;
    PrintedSplits(s);
    ShownAgain(Body(s));
    ShownAgain(Extension(s));
  }

  /** No dot more than needed: none, or one in front of an extension. */
  predicate DotsNeeded(s: Text) {
    BodyLength(s) == |s| || (Extension(s) != [] && BodyLength(s) + 1 + |Extension(s)| == |s|)
  }

  /** The printed name is the name given exactly when neither part mixes cases and there is no redundant dot. */
  lemma PrintedAsGiven(s: Text)
    requires Accepted(s)
    ensures Printed(Stored(s), NtFlags(s)) == s <==>
      !(HasLower(Body(s)) && HasUpper(Body(s))) && !(HasLower(Extension(s)) && HasUpper(Extension(s))) && DotsNeeded(s)
  {
    hide Printed;
    hide Shown;
    hide Body;
    hide Extension;
    hide HasLower;
    hide HasUpper;
    hide Stored;
    PrintedParts(s);
    PrintedSplits(s);
    ShownSame(Body(s));
    ShownSame(Extension(s));
    ShownAgain(Body(s));
    ShownAgain(Extension(s));
    SplitJoined(s);
  }

  /** A name that mixes cases and one with a redundant dot are printed otherwise: Aa becomes AA, and A. becomes A. */
  lemma PrintedOtherwise()
    ensures Accepted([0x41, 0x61]) && Printed(Stored([0x41, 0x61]), NtFlags([0x41, 0x61])) != [0x41, 0x61]
    ensures Accepted([0x41, DOT]) && Printed(Stored([0x41, DOT]), NtFlags([0x41, DOT])) != [0x41, DOT]
  {
    var s, t: Text := [0x41, 0x61], [0x41, DOT];
    BodyLengthIs(s, 2);
    BodyLengthIs(t, 1);
    assert s[2..] == [] && t[1..] == [DOT] && [DOT][1..] == [] && Body(s) == s && Body(t) == [0x41];
    assert Extension(s) == [] && Extension(t) == [];
    assert IsUpper(s[0]) && IsLower(s[1]);
    PrintedAsGiven(s);
    PrintedAsGiven(t);
  }

  /** A name without redundant dots is its body and, after a dot, its extension; others are longer. */
  lemma SplitJoined(s: Text)
    ensures DotsNeeded(s) <==> s == Body(s) + if Extension(s) == [] then [] else [DOT] + Extension(s)
  {
    assert s == Body(s) + s[BodyLength(s)..];
    if DotsNeeded(s) && BodyLength(s) < |s| {
      assert s[BodyLength(s)..] == [DOT] + Extension(s);
    }
  }

  // ---- reading a name character by character ----

  /** The part of the entry that the next character goes to. */
  predicate InBody(p: Text) {
    BodyLength(p) == |p|
  }

  /** The 11 bytes so far: spaces at the start. */
  function Entry(p: Text): (r: Text)
    requires p == [] || Accepted(p)
    ensures |r| == 11
  {
    if p == [] then Spaces(11) else Stored(p)
  }

  /** The position of the next character. */
  function NextPos(p: Text): nat {
    if InBody(p) then |p| else 8 + |Extension(p)|
  }

  lemma {:induction false} SkipDotsMore(s: Text, c: int)
    ensures SkipDots(s + [c]) == if c == DOT && SkipDots(s) == [] then [] else SkipDots(s) + [c]
  {
    if s == [] {
      assert (s + [c])[1..] == [];
    } else if s[0] == DOT {
      assert (s + [c])[1..] == s[1..] + [c];
      SkipDotsMore(s[1..], c);
    } else {
      assert SkipDots(s) == s && (s + [c])[0] == s[0];
    }
  }

  /** The extension with one more character: leading dots do not count. */
  function Extended(ext: Text, c: int): Text {
    if c == DOT && ext == [] then [] else ext + [c]
  }

  /** How a character changes the parts. */
  lemma PartsMore(p: Text, c: int)
    ensures if InBody(p) && c != DOT then InBody(p + [c]) && Body(p + [c]) == p + [c] && Extension(p + [c]) == []
      else !InBody(p + [c]) && Body(p + [c]) == Body(p) && Extension(p + [c]) == Extended(Extension(p), c)
    ensures InBody(p) ==> Body(p) == p && Extension(p) == []
  {
    var k := BodyLength(p);
    if InBody(p) && c != DOT {
      BodyLengthIs(p + [c], |p| + 1);
    } else {
      BodyLengthIs(p + [c], k);
      assert (p + [c])[..k] == p[..k] && (p + [c])[k..] == p[k..] + [c];
      SkipDotsMore(p[k..], c);
    }
  }

  lemma PartsPrefix(p: Text, c: int)
    requires Accepted(p + [c]) && p != []
    ensures Accepted(p)
  {
    PartsMore(p, c);
    var q := p + [c];
    forall i | 0 <= i < |Body(p)|
      ensures Storable(Body(p)[i])
    {
      assert Body(p)[i] == Body(q)[i];
    }
    forall i | 0 <= i < |Extension(p)|
      ensures Storable(Extension(p)[i])
    {
      assert Extension(p)[i] == Extension(q)[i];
    }
  }

  /** What is not accepted is not accepted with more characters either. */
  lemma {:induction false} PrefixAccepted(s: Text, i: nat)
    requires 0 < i <= |s| && Accepted(s)
    ensures Accepted(s[..i])
    decreases |s| - i
  {
    hide Accepted;
    if i < |s| {
      PrefixAccepted(s, i + 1);
      assert s[..i + 1] == s[..i] + [s[i]];
      PartsPrefix(s[..i], s[i]);
    } else {
      assert s[..i] == s;
    }
  }

  lemma StorableMore(s: Text, c: int)
    ensures AllStorable(s + [c]) <==> AllStorable(s) && Storable(c)
  {
    var t := s + [c];
    assert t[|s|] == c && forall i :: 0 <= i < |s| ==> t[i] == s[i];
  }

  /** Exactly which characters continue an accepted name. */
  lemma AcceptedMore(p: Text, c: int)
    requires p == [] || Accepted(p)
    ensures Accepted(p + [c]) <==>
      if c == DOT then p != [] && (InBody(p) || Extension(p) == [])
      else Storable(c) && NextPos(p) < if InBody(p) then 8 else 11
  {
    hide AllStorable;
    hide Body;
    hide Extension;
    hide InBody;
    PartsMore(p, c);
    StorableMore(Body(p), c);
    StorableMore(Extension(p), c);
    NoneStorable();
    EmptyName();
  }

  lemma NoneStorable()
    ensures AllStorable([])
  {
  }

  lemma EmptyName()
    ensures InBody([]) && Body([]) == [] && Extension([]) == []
  {
  }

  lemma PaddedMore(s: Text, c: int, n: nat)
    requires |s| < n
    ensures Padded(UpAll(s + [c]), n) == Padded(UpAll(s), n)[|s| := Up(c)]
  {
  }

  /** A stored character goes to the next position, and nothing else changes. */
  lemma EntryMore(p: Text, c: int)
    requires (p == [] || Accepted(p)) && c != DOT && Accepted(p + [c])
    ensures NextPos(p) < 11 && Entry(p + [c]) == Entry(p)[NextPos(p) := Up(c)]
  {
    hide UpAll;
    hide Padded;
    hide Accepted;
    hide Body;
    hide Extension;
    hide InBody;
    AcceptedMore(p, c);
    PartsMore(p, c);
    if InBody(p) {
      PaddedMore(p, c, 8);
      EmptyEntry();
    } else {
      PaddedMore(Extension(p), c, 3);
      EmptyName();
      AcceptedSizes(p);
      UpdateSecond(Padded(UpAll(Body(p)), 8), Padded(UpAll(Extension(p)), 3), |Extension(p)|, Up(c));
    }
  }

  lemma AcceptedSizes(p: Text)
    requires Accepted(p)
    ensures |Body(p)| <= 8 && |Extension(p)| <= 3
  {
  }

  lemma UpdateSecond(a: Text, b: Text, k: nat, x: int)
    requires k < |b|
    ensures (a + b)[|a| + k := x] == a + b[k := x]
  {
  }

  lemma EmptyEntry()
    ensures Spaces(11) == Padded(UpAll([]), 8) + Padded(UpAll([]), 3)
  {
  }

  lemma EntryDot(p: Text)
    requires Accepted(p) && Accepted(p + [DOT])
    ensures Entry(p + [DOT]) == Entry(p) && NextPos(p + [DOT]) == 8 && !InBody(p + [DOT])
    ensures Body(p + [DOT]) == Body(p) && Extension(p + [DOT]) == [] && Extension(p) == []
  {
    AcceptedMore(p, DOT);
    PartsMore(p, DOT);
    assert p != [];
  }

  lemma CaseMore(s: Text, c: int)
    ensures HasLower(s + [c]) <==> HasLower(s) || IsLower(c)
    ensures HasUpper(s + [c]) <==> HasUpper(s) || IsUpper(c)
  {
    var t := s + [c];
    assert t[|s|] == c && forall i :: 0 <= i < |s| ==> t[i] == s[i];
  }

  /** The letter cases seen so far, as the variables a and b of make_dirfile keep them: a bit of a is set by a
      lower-case letter, a bit of b cleared by an upper-case one. */
  ghost predicate Cases(p: Text, a8: bool, a16: bool, b8: bool, b16: bool) {
    (a8 <==> HasLower(Body(p))) && (a16 <==> HasLower(Extension(p))) && (b8 <==> !HasUpper(Body(p))) &&
    (b16 <==> !HasUpper(Extension(p)))
  }

  lemma CasesMore(p: Text, c: int, a8: bool, a16: bool, b8: bool, b16: bool)
    requires Cases(p, a8, a16, b8, b16) && c != DOT
    ensures InBody(p) ==> Cases(p + [c], a8 || IsLower(c), a16, b8 && !IsUpper(c), b16)
    ensures !InBody(p) ==> Cases(p + [c], a8, a16 || IsLower(c), b8, b16 && !IsUpper(c))
  {
    hide HasLower;
    hide HasUpper;
    PartsMore(p, c);
    CaseMore(Body(p), c);
    CaseMore(Extension(p), c);
  }

  predicate Ends(c: int) {
    c == 0 || c == 0x2F
  }

  /** The first part of the path, up to a slash or the end. */
  function Segment(path: Text): (r: Text)
    ensures |r| <= |path| && r == path[..|r|] && (forall i :: 0 <= i < |r| ==> !Ends(r[i]))
    ensures (|r| < |path| ==> Ends(path[|r|]))
  {
    if path == [] || Ends(path[0]) then [] else [path[0]] + Segment(path[1..])
  }

  /** make_dirfile on 7-bit characters: it takes the first part of the path exactly when that is an accepted name. */
  method MakeDirfile(path: Text, dirname: array<int>) returns (ok: bool, next: nat)
    requires dirname.Length == 12 && forall i :: 0 <= i < |path| ==> 0 <= path[i] < 0x80
    modifies dirname
    ensures ok <==> Accepted(Segment(path))
    ensures ok ==> dirname[..11] == Stored(Segment(path)) && dirname[11] == NtFlags(Segment(path))
    ensures ok ==> next == |Segment(path)| && FieldOf(dirname[..8], Body(Segment(path)), 8)
    ensures ok ==> FieldOf(dirname[8..11], Extension(Segment(path)), 3)
  {
    hide Accepted;
    hide Stored;
    hide Body;
    hide Extension;
    hide InBody;
    hide Cases;
    hide NtFlags;
    hide Segment;
    hide FieldOf;
    hide OneCase;
    ghost var seg := Segment(path);
    forall i | 0 <= i < 11 {
      dirname[i] := SPACE;
    }
    var a8, a16, b8, b16, n, t := false, false, true, true, 0, 8;
    next := 0;
    ok := false;
    StartScan();
    assert dirname[..11] == Spaces(11);
    while next < |path| && !Ends(path[next])
      invariant next <= |seg| && n <= 11 && seg == path[..|seg|]
      invariant next == 0 || Accepted(seg[..next])
      invariant dirname[..11] == Entry(seg[..next]) && n == NextPos(seg[..next]) && Cases(seg[..next], a8, a16, b8, b16)
      invariant t == if InBody(seg[..next]) then 8 else 11
      decreases |path| - next
    {
      var c := path[next];
      ghost var p := seg[..next];
      SegmentNext(path, next);
      assert seg[next] == c && seg[..next + 1] == p + [c];
      AcceptedMore(p, c);
      PosBounds(p);
      if !Accepted(p + [c]) {
        NotAccepted(seg, next + 1);
      }
      if c <= 0x20 || c == 0x7F {
        return;
      }
      if c == DOT {
        if !(1 <= n <= 8) {
          return;
        }
        DotCases(p, a8, a16, b8, b16);
        EntryDot(p);
        n, t, next := 8, 11, next + 1;
        continue;
      }
      if Rejected(c) {
        return;
      }
      if n >= t {
        return;
      }
      EntryMore(p, c);
      CasesMore(p, c, a8, a16, b8, b16);
      PosMore(p, c);
      if IsUpper(c) {
        if t == 8 {
          b8 := false;
        } else {
          b16 := false;
        }
      }
      if IsLower(c) {
        if t == 8 {
          a8 := true;
        } else {
          a16 := true;
        }
      }
      dirname[n] := Up(c);
      assert dirname[..11] == Entry(p)[n := Up(c)];
      n, next := n + 1, next + 1;
    }
    SegmentEnd(path, next);
    assert seg[..next] == seg;
    FlagsOf(seg, a8, a16, b8, b16);
    if n == 0 {
      NothingRead(seg);
      return;
    }
    dirname[11] := (if a8 && b8 then BODY_LOWER else 0) + (if a16 && b16 then EXT_LOWER else 0);
    ok := true;
    PosBounds(seg);
    StoredBytes(seg);
    assert dirname[..8] == dirname[..11][..8] && dirname[8..11] == dirname[..11][8..];
  }

  /** The other characters that make_dirfile rejects. */
  predicate Rejected(c: int) {
    c == 0x22 || 0x2A <= c <= 0x2C || 0x3A <= c <= 0x3F || c == 0x7C || 0x5B <= c <= 0x5D
  }

  lemma StartScan()
    ensures InBody([]) && NextPos([]) == 0 && Cases([], false, false, true, true) && Entry([]) == Spaces(11)
  {
  }

  lemma PosBounds(p: Text)
    requires p == [] || Accepted(p)
    ensures InBody(p) ==> NextPos(p) <= 8 && (NextPos(p) == 0 <==> p == [])
    ensures !InBody(p) ==> 8 <= NextPos(p) <= 11 && (NextPos(p) <= 8 <==> Extension(p) == []) && p != []
  {
    assert InBody(p) ==> Body(p) == p;
  }

  lemma PosMore(p: Text, c: int)
    requires c != DOT
    ensures NextPos(p + [c]) == NextPos(p) + 1 && (InBody(p + [c]) <==> InBody(p))
  {
    PartsMore(p, c);
  }

  lemma DotCases(p: Text, a8: bool, a16: bool, b8: bool, b16: bool)
    requires Cases(p, a8, a16, b8, b16) && (InBody(p) || Extension(p) == [])
    ensures Cases(p + [DOT], a8, a16, b8, b16)
  {
    hide HasLower;
    hide HasUpper;
    hide Body;
    hide Extension;
    hide InBody;
    PartsMore(p, DOT);
  }

  lemma NotAccepted(s: Text, i: nat)
    requires 0 < i <= |s| && !Accepted(s[..i])
    ensures !Accepted(s)
  {
    if Accepted(s) {
      PrefixAccepted(s, i);
    }
  }

  lemma SegmentNext(path: Text, i: nat)
    requires i < |path| && i <= |Segment(path)| && !Ends(path[i])
    ensures i < |Segment(path)| && Segment(path)[i] == path[i]
  {
  }

  lemma SegmentEnd(path: Text, i: nat)
    requires i <= |Segment(path)| && (i < |path| ==> Ends(path[i]))
    ensures i == |Segment(path)|
  {
  }

  lemma FlagsOf(s: Text, a8: bool, a16: bool, b8: bool, b16: bool)
    requires Cases(s, a8, a16, b8, b16)
    ensures NtFlags(s) == (if a8 && b8 then BODY_LOWER else 0) + (if a16 && b16 then EXT_LOWER else 0)
  {
  }

  lemma NothingRead(s: Text)
    requires NextPos(s) == 0
    ensures !Accepted(s)
  {
  }

  /** get_fileinfo, as far as the name goes. */
  method GetFileinfo(dir: Text, flags: int) returns (name: Text)
    requires |dir| == 11
    ensures name == Printed(dir, flags)
  {
    var a8, a16 := flags % 16 >= BODY_LOWER, flags % 32 >= EXT_LOWER;
    name := [];
    ghost var body, ext := Trim(dir[..8]), Trim(dir[8..]);
    var n := 0;
    while n < 8 && dir[n] != SPACE
      invariant n <= |body| && |name| == n
      invariant forall i :: 0 <= i < n ==> name[i] == ShownChar(body[i], a8)
    {
      assert dir[..8][n] == dir[n];
      var c := dir[n];
      if c == 0x05 {
        c := 0xE5;
      }
      if a8 && 0x41 <= c <= 0x5A {
        c := c + 0x20;
      }
      name := name + [c];
      n := n + 1;
    }
    assert n < 8 ==> dir[..8][n] == dir[n];
    assert name == if a8 then DownAll(Heads(body)) else Heads(body);
    assert dir[8..][0] == dir[8];
    if dir[8] != SPACE {
      var tail: Text := [];
      n := 8;
      while n < 11 && dir[n] != SPACE
        invariant 8 <= n <= 8 + |ext| && |tail| == n - 8
        invariant forall i :: 0 <= i < |tail| ==> tail[i] == if a16 then Down(ext[i]) else ext[i]
      {
        assert dir[8..][n - 8] == dir[n];
        var c := dir[n];
        if a16 && 0x41 <= c <= 0x5A {
          c := c + 0x20;
        }
        tail := tail + [c];
        n := n + 1;
      }
      assert n < 11 ==> dir[8..][n - 8] == dir[n];
      assert tail == if a16 then DownAll(ext) else ext;
      name := name + [DOT] + tail;
    }
  }

  function ShownChar(c: int, lower: bool): int {
    var d := if c == 0x05 then 0xE5 else c;
    if lower then Down(d) else d
  }
}
