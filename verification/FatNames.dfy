/** Short file names of FatFs in code page 932: a path segment as the 11 bytes of a directory entry, and an
    entry as text. */
module FatNames {
  import opened Basics
  import opened FatCodec

  const SPACE: Byte := 0x20
  const DOT: Byte := 0x2E

  /** First byte of a double-byte character. */
  predicate IsDbcs1(c: Byte) {
    0x81 <= c <= 0x9F || 0xE0 <= c <= 0xFC
  }

  predicate IsDbcs2(c: Byte) {
    0x40 <= c <= 0x7E || 0x80 <= c <= 0xFC
  }

  /** The characters "*+,:;<=>?[]| and 0x7F. */
  predicate Illegal(c: Byte) {
    c == 0x22 || 0x2A <= c <= 0x2C || 0x3A <= c <= 0x3F || c == 0x5B || c == 0x5D || c == 0x7C || c == 0x7F
  }

  predicate IsLower(c: Byte) {
    0x61 <= c <= 0x7A
  }

  function Upper(c: Byte): Byte {
    if IsLower(c) then c - 0x20 else c
  }

  /** Ends a path segment: a control character, a space or a slash. */
  predicate Ends(c: Byte) {
    c <= SPACE || c == 0x2F || c == 0x5C
  }

  /** Byte k of a string, which ends with 0. */
  function At(p: seq<Byte>, k: nat): Byte {
    if k < |p| then p[k] else 0
  }

  datatype Parsed = Bad | Good(sfn: seq<Byte>, next: nat)

  /** The end of create_name: no empty name, and 0x05 for a first byte that would mean a deleted entry. */
  function Finish(i: nat, sfn: seq<Byte>, next: nat): Parsed
    requires |sfn| == 11
  {
    if i == 0 then Bad else Good(if sfn[0] == 0xE5 then sfn[0 := 0x05] else sfn, next)
  }

  /** create_name from byte si of the path on, with i bytes of the name before position ni done. */
  function Parse(p: seq<Byte>, si: nat, i: nat, ni: nat, sfn: seq<Byte>): (r: Parsed)
    requires |sfn| == 11 && i <= ni && (ni == 8 || ni == 11)
    ensures r.Good? ==> |r.sfn| == 11
    decreases |p| - si
  {
    var c := At(p, si);
    if Ends(c) then Finish(i, sfn, si + 1)
    else if c == DOT || i >= ni then
      if ni != 8 || c != DOT then Bad else Parse(p, si + 1, 8, 11, sfn)
    else if IsDbcs1(c) then
      var d := At(p, si + 1);
      if !IsDbcs2(d) || i >= ni - 1 then Bad else Parse(p, si + 2, i + 2, ni, sfn[i := c][i + 1 := d])
    else if Illegal(c) then Bad
    else Parse(p, si + 1, i + 1, ni, sfn[i := Upper(c)])
  }

  function Spaces(n: nat): (r: seq<Byte>)
    ensures |r| == n && forall i :: 0 <= i < n ==> r[i] == SPACE
  {
    seq(n, i => SPACE)
  }

  /** create_name without long names, on the path from its first byte. */
  method CreateName(p: seq<Byte>) returns (r: Parsed)
    ensures r == Parse(p, 0, 0, 8, Spaces(11))
    ensures Meaning(p, r)
  {
    ParseMeans(p);
    var sfn: seq<Byte> := Spaces(11);
    var si, i, ni := 0, 0, 8;
    while true
      invariant |sfn| == 11 && 0 <= i <= ni && 0 <= si && (ni == 8 || ni == 11)
      invariant Parse(p, si, i, ni, sfn) == Parse(p, 0, 0, 8, Spaces(11))
      decreases |p| - si
    {
      var c := At(p, si);
      si := si + 1;
      if c <= SPACE || c == 0x2F || c == 0x5C { break; }
      if c == DOT || i >= ni {
        if ni != 8 || c != DOT { return Bad; }
        i, ni := 8, 11;
        continue;
      }
      if IsDbcs1(c) {
        var d := At(p, si);
        si := si + 1;
        if !IsDbcs2(d) || i >= ni - 1 { return Bad; }
        sfn := sfn[i := c];
        i := i + 1;
        sfn := sfn[i := d];
        i := i + 1;
      } else {
        if Illegal(c) { return Bad; }
        if IsLower(c) { c := c - 0x20; }
        sfn := sfn[i := c];
        i := i + 1;
      }
    }
    if i == 0 { return Bad; }
    if sfn[0] == 0xE5 { sfn := sfn[0 := 0x05]; }
    r := Good(sfn, si);
  }

  // ---------- names as characters ----------

  /** Whole characters as they are stored: upper case, none that ends a name or is illegal in it. */
  predicate Chars(s: seq<Byte>) {
    s == [] ||
    if IsDbcs1(s[0]) then |s| >= 2 && IsDbcs2(s[1]) && Chars(s[2..])
    else !Ends(s[0]) && s[0] != DOT && !Illegal(s[0]) && !IsLower(s[0]) && Chars(s[1..])
  }

  lemma {:induction false} CharsAppend(s: seq<Byte>, t: seq<Byte>)
    requires Chars(s) && Chars(t)
    ensures Chars(s + t)
  {
    hide IsDbcs1, IsDbcs2, Illegal, IsLower, Ends;
    if s == [] {
      assert s + t == t;
    } else if IsDbcs1(s[0]) {
      CharsAppend(s[2..], t);
      assert (s + t)[2..] == s[2..] + t;
    } else {
      CharsAppend(s[1..], t);
      assert (s + t)[1..] == s[1..] + t;
    }
  }

  /** No byte of a name is a space, or 0x05. */
  lemma {:induction false} CharsAbove(s: seq<Byte>)
    requires Chars(s)
    ensures forall k :: 0 <= k < |s| ==> s[k] > SPACE
  {
    if s != [] {
      var n := if IsDbcs1(s[0]) then 2 else 1;
      CharsAbove(s[n..]);
      forall k | 0 <= k < |s|
        ensures s[k] > SPACE
      {
        assert k >= n ==> s[n..][k - n] == s[k];
      }
    }
  }

  /** A byte that is a character of a name: a visible one, none of "*+,./:;<=>?[\]| and not 0x7F. */
  predicate Plain(c: Byte) {
    c > 0x20 && c !in [0x22, 0x2A, 0x2B, 0x2C, 0x2E, 0x2F, 0x3A, 0x3B, 0x3C, 0x3D, 0x3E, 0x3F, 0x5B, 0x5C, 0x5D, 0x7C, 0x7F]
  }

  /** The first byte of a double-byte character of code page 932. */
  predicate Leads(c: Byte) {
    0x81 <= c <= 0x9F || 0xE0 <= c <= 0xFC
  }

  /** Whole characters of a name as they are typed: double-byte ones, and bytes that may be lower case. */
  predicate Characters(t: seq<Byte>) {
    t == [] ||
    if Leads(t[0]) then |t| >= 2 && (0x40 <= t[1] <= 0x7E || 0x80 <= t[1] <= 0xFC) && Characters(t[2..])
    else Plain(t[0]) && Characters(t[1..])
  }

  /** The same characters with capital letters; double-byte ones stay. */
  function Capitals(t: seq<Byte>): (s: seq<Byte>)
    ensures |s| == |t|
  {
    if t == [] then []
    else if Leads(t[0]) && |t| >= 2 then t[..2] + Capitals(t[2..])
    else [if 0x61 <= t[0] <= 0x7A then t[0] - 0x20 else t[0]] + Capitals(t[1..])
  }

  lemma {:induction false} CapitalsAreChars(t: seq<Byte>)
    requires Characters(t)
    ensures Chars(Capitals(t))
  {
    if t != [] {
      var n := if Leads(t[0]) then 2 else 1;
      CapitalsAreChars(t[n..]);
      assert Capitals(t)[n..] == Capitals(t[n..]);
    }
  }

  lemma {:induction false} CharsAreCapitals(s: seq<Byte>)
    requires Chars(s)
    ensures Characters(s) && Capitals(s) == s
  {
    if s != [] {
      var n := if IsDbcs1(s[0]) then 2 else 1;
      CharsAreCapitals(s[n..]);
    }
  }

  /** The first character, and the others. */
  lemma {:induction false} CapitalsSplit(s: seq<Byte>)
    requires s != []
    ensures var n := if Leads(s[0]) then 2 else 1;
            && (Characters(s) <==> n <= |s| && Characters(s[..n]) && Characters(s[n..]))
            && (Characters(s) ==> Capitals(s) == Capitals(s[..n]) + Capitals(s[n..]))
  {
    hide Plain;
    if !Leads(s[0]) {
      OneTyped(s[0]);
      assert s[..1] == [s[0]];
    } else if |s| >= 2 {
      TwoTyped(s[0], s[1]);
      assert s[..2] == [s[0], s[1]];
    }
  }

  lemma OneTyped(c: Byte)
    requires !Leads(c)
    ensures Characters([c]) <==> Plain(c)
    ensures Capitals([c]) == [if 0x61 <= c <= 0x7A then c - 0x20 else c]
  {
    assert [c][1..] == [];
  }

  lemma TwoTyped(c: Byte, d: Byte)
    requires Leads(c)
    ensures Characters([c, d]) <==> 0x40 <= d <= 0x7E || 0x80 <= d <= 0xFC
    ensures Capitals([c, d]) == [c, d]
  {
    assert [c, d][2..] == [];
  }

  lemma Reassociated(a: seq<Byte>, b: seq<Byte>, c: seq<Byte>)
    ensures a + b + c == a + (b + c)
  {
  }

  lemma {:induction false} CharactersAppend(s: seq<Byte>, t: seq<Byte>)
    requires Characters(s) && Characters(t)
    ensures Characters(s + t) && Capitals(s + t) == Capitals(s) + Capitals(t)
  {
    hide Plain, Leads, Capitals;
    if s == [] {
      assert s + t == t;
    } else {
      var n := if Leads(s[0]) then 2 else 1;
      CharactersAppend(s[n..], t);
      CapitalsSplit(s);
      CapitalsSplit(s + t);
      assert (s + t)[n..] == s[n..] + t && (s + t)[..n] == s[..n] && (s + t)[0] == s[0];
      Reassociated(Capitals(s[..n]), Capitals(s[n..]), Capitals(t));
    }
  }

  /** The 11 bytes of a name of body b and extension e. */
  function Form(b: seq<Byte>, e: seq<Byte>): (r: seq<Byte>)
    requires |b| <= 8 && |e| <= 3
    ensures |r| == 11
  {
    b + Spaces(8 - |b|) + e + Spaces(3 - |e|)
  }

  /** The stored form: 0x05 stands for a first byte 0xE5. */
  function Stored(b: seq<Byte>, e: seq<Byte>): (r: seq<Byte>)
    requires |b| <= 8 && |e| <= 3
    ensures |r| == 11
  {
    var f := Form(b, e);
    if f[0] == 0xE5 then f[0 := 0x05] else f
  }

  /** The text of a name. */
  function Text(b: seq<Byte>, e: seq<Byte>): seq<Byte> {
    if e == [] then b else b + [DOT] + e
  }

  // ---------- printing ----------

  /** The bytes before the first space. */
  function Field(s: seq<Byte>): (r: seq<Byte>)
    ensures |r| <= |s|
  {
    if s == [] || s[0] == SPACE then [] else [s[0]] + Field(s[1..])
  }

  function Shown(s: seq<Byte>): (r: seq<Byte>)
    ensures |r| == |s|
  {
    seq(|s|, k requires 0 <= k < |s| => if s[k] == 0x05 then 0xE5 else s[k])
  }

  /** The text that get_fileinfo makes of the 11 bytes of an entry. */
  function Print(sfn: seq<Byte>): seq<Byte>
    requires |sfn| == 11
  {
    Shown(Field(sfn[..8])) + if sfn[8] != SPACE then [DOT] + Field(sfn[8..]) else []
  }

  /** The name part of get_fileinfo. */
  method GetName(dir: seq<Byte>) returns (text: seq<Byte>)
    requires |dir| >= 11
    ensures text == Print(dir[..11])
  {
    ghost var sfn := dir[..11];
    text := GetBody(dir);
    if dir[8] != SPACE {
      text := text + [DOT];
      var i := 8;
      while i < 11
        invariant 8 <= i <= 11
        invariant Shown(Field(sfn[..8])) + [DOT] + Field(sfn[8..11]) == text + Field(sfn[i..11])
        decreases 11 - i
      {
        var c := dir[i];
        FieldStep(sfn, i, 11);
        if c == SPACE { break; }
        text := text + [c];
        i := i + 1;
      }
      assert sfn[8..11] == sfn[8..];
      Joined(Shown(Field(sfn[..8])), Field(sfn[8..]));
    }
  }

  /** The loop over the body of the name. */
  method GetBody(dir: seq<Byte>) returns (text: seq<Byte>)
    requires |dir| >= 11
    ensures text == Shown(Field(dir[..11][..8]))
  {
    hide Field, Shown;
    text := [];
    var i := 0;
    ghost var sfn := dir[..11];
    assert sfn[..8] == sfn[0..8];
    while i < 8
      invariant 0 <= i <= 8
      invariant Shown(Field(sfn[..8])) == text + Shown(Field(sfn[i..8]))
      decreases 8 - i
    {
      var c := dir[i];
      FieldStep(sfn, i, 8);
      if c == SPACE { break; }
      if c == 0x05 { c := 0xE5; }
      text := text + [c];
      i := i + 1;
    }
    EndOfField(sfn, i, 8);
  }

  lemma EndOfField(s: seq<Byte>, i: nat, n: nat)
    requires i <= n <= |s|
    ensures i == n || s[i] == SPACE ==> Shown(Field(s[i..n])) == []
  {
    assert i < n ==> s[i..n][0] == s[i];
  }

  lemma Joined(a: seq<Byte>, b: seq<Byte>)
    ensures a + [DOT] + b == a + ([DOT] + b)
  {
  }

  lemma FieldStep(s: seq<Byte>, i: nat, n: nat)
    requires i < n <= |s|
    ensures Field(s[i..n]) == if s[i] == SPACE then [] else [s[i]] + Field(s[i + 1..n])
    ensures Shown(Field(s[i..n])) == if s[i] == SPACE then [] else [if s[i] == 0x05 then 0xE5 else s[i]] + Shown(Field(s[i + 1..n]))
  {
    assert s[i..n][1..] == s[i + 1..n];
  }

  // ---------- the round trip ----------

  /** The place in the 11 bytes where create_name stands, with the body b and the extension e done. */
  predicate Place(i: nat, ni: nat, b: seq<Byte>, e: seq<Byte>) {
    |b| <= 8 && |e| <= 3 && ((ni == 8 && e == [] && i == |b|) || (ni == 11 && i == 8 + |e|))
  }

  /** What is typed for the body tb and, behind a dot, the extension te. */
  function Typed(tb: seq<Byte>, te: seq<Byte>, dot: bool): seq<Byte> {
    if dot then tb + [0x2E] + te else tb
  }

  /** The path begins with a segment of n bytes that is a body and, behind a dot, an extension, and that a control
      character, a space, a slash, a backslash or the end of the path ends. */
  ghost predicate Segment(p: seq<Byte>, tb: seq<Byte>, te: seq<Byte>, dot: bool, n: nat) {
    && |tb| <= 8 && |te| <= 3 && Characters(tb) && Characters(te) && (te != [] ==> dot) && (tb != [] || dot)
    && n <= |p| && p[..n] == Typed(tb, te, dot)
    && (n == |p| || p[n] <= 0x20 || p[n] == 0x2F || p[n] == 0x5C)
  }

  /** Where create_name stands, with tb and te read, of which the bytes sfn have been made. */
  predicate Reads(tb: seq<Byte>, te: seq<Byte>, i: nat, ni: nat, sfn: seq<Byte>) {
    && Characters(tb) && Characters(te) && Place(i, ni, Capitals(tb), Capitals(te))
    && sfn == Form(Capitals(tb), Capitals(te))
  }

  /** What create_name accepts is a segment, and its 11 bytes are the stored form of the capitals of that. */
  lemma {:induction false} ParseIsSegment(p: seq<Byte>, si: nat, i: nat, ni: nat, sfn: seq<Byte>, tb: seq<Byte>, te: seq<Byte>)
    returns (tb2: seq<Byte>, te2: seq<Byte>, dot: bool, n: nat)
    requires (ni == 8 || ni == 11) && si <= |p| && Reads(tb, te, i, ni, sfn) && p[..si] == Typed(tb, te, ni == 11)
    requires Parse(p, si, i, ni, sfn).Good?
    ensures Segment(p, tb2, te2, dot, n)
    ensures Parse(p, si, i, ni, sfn) == Good(Stored(Capitals(tb2), Capitals(te2)), n + 1)
    decreases |p| - si
  {
    hide Form, Characters, Capitals, IsDbcs1, IsDbcs2, Illegal, IsLower, Plain;
    var c := At(p, si);
    if Ends(c) {
      tb2, te2, dot, n := tb, te, ni == 11, si;
    } else if c == DOT || i >= ni {
      EmptyIsCharacters();
      tb2, te2, dot, n := ParseIsSegment(p, si + 1, 8, 11, sfn, tb, []);
    } else {
      var w := if IsDbcs1(c) then 2 else 1;
      OneRead(p, si, i, ni, sfn, tb, te, w);
      var t := p[si..si + w];
      var f := Grow(sfn, i, Capitals(t));
      if ni == 8 {
        tb2, te2, dot, n := ParseIsSegment(p, si + w, i + w, ni, f, tb + t, te);
      } else {
        tb2, te2, dot, n := ParseIsSegment(p, si + w, i + w, ni, f, tb, te + t);
      }
    }
  }

  lemma EmptyIsCharacters()
    ensures Characters([]) && Capitals([]) == [] && Form([], []) == Spaces(11)
  {
  }

  /** create_name over one character. */
  lemma OneRead(p: seq<Byte>, si: nat, i: nat, ni: nat, sfn: seq<Byte>, tb: seq<Byte>, te: seq<Byte>, w: nat)
    requires (ni == 8 || ni == 11) && si <= |p| && Reads(tb, te, i, ni, sfn) && p[..si] == Typed(tb, te, ni == 11)
    requires Parse(p, si, i, ni, sfn).Good? && !Ends(At(p, si)) && At(p, si) != DOT && i < ni
    requires w == if IsDbcs1(At(p, si)) then 2 else 1
    ensures si + w <= |p| && i + w <= ni && |sfn| == 11 && Characters(p[si..si + w])
    ensures var t := p[si..si + w];
            && Parse(p, si, i, ni, sfn) == Parse(p, si + w, i + w, ni, Grow(sfn, i, Capitals(t)))
            && (ni == 8 ==> Reads(tb + t, te, i + w, ni, Grow(sfn, i, Capitals(t))) && p[..si + w] == Typed(tb + t, te, false))
            && (ni == 11 ==> Reads(tb, te + t, i + w, ni, Grow(sfn, i, Capitals(t))) && p[..si + w] == Typed(tb, te + t, true))
  {
    hide Form, Capitals, Grow, Parse, Illegal, IsDbcs1, IsDbcs2, Characters;
    ReadAllowed(p, si, i, ni, sfn, w);
    OneCharacter(p, si, w);
    WidthOf(p, si, w);
    var t := p[si..si + w];
    ParseOne(p, si, i, ni, sfn, t);
    assert t[..w] == t;
    GrowForm(Capitals(tb), Capitals(te), i, ni, Capitals(t));
    CharactersAppend(tb, t);
    CharactersAppend(te, t);
    assert p[..si + w] == p[..si] + t;
  }

  lemma ReadAllowed(p: seq<Byte>, si: nat, i: nat, ni: nat, sfn: seq<Byte>, w: nat)
    requires |sfn| == 11 && i < ni && (ni == 8 || ni == 11) && Parse(p, si, i, ni, sfn).Good?
    requires !Ends(At(p, si)) && At(p, si) != DOT && w == if IsDbcs1(At(p, si)) then 2 else 1
    ensures i + w <= ni && (w == 1 ==> !Illegal(At(p, si))) && (w == 2 ==> IsDbcs2(At(p, si + 1)))
  {
  }

  lemma WidthOf(p: seq<Byte>, si: nat, w: nat)
    requires si + w <= |p| && w == if IsDbcs1(At(p, si)) then 2 else 1
    ensures p[si..si + w] != [] && Width(p[si..si + w]) == w
    ensures At(p, si) == p[si..si + w][0] && (w > 1 ==> At(p, si + 1) == p[si..si + w][1])
  {
  }

  lemma OneCharacter(p: seq<Byte>, si: nat, w: nat)
    requires si <= |p| && w == if IsDbcs1(At(p, si)) then 2 else 1
    requires !Ends(At(p, si)) && At(p, si) != DOT && (w == 1 ==> !Illegal(At(p, si))) && (w == 2 ==> IsDbcs2(At(p, si + 1)))
    ensures si + w <= |p| && Characters(p[si..si + w])
  {
    var t := p[si..si + w];
    assert t[0] == p[si] && (w == 2 ==> t[1] == p[si + 1]) && t[w..] == [];
  }

  lemma Tail(p: seq<Byte>, si: nat, t: seq<Byte>, n: nat)
    requires t != [] && si + |t| <= |p| && p[si..si + |t|] == t && n <= |t|
    ensures At(p, si) == t[0] && (|t| > 1 ==> At(p, si + 1) == t[1])
    ensures p[si + n..si + n + |t[n..]|] == t[n..]
  {
    var q := p[si..si + |t|];
    assert p[si] == q[0] && (|t| > 1 ==> p[si + 1] == q[1]);
    var hi := si + |t|;
    assert p[si..hi][n..] == p[si + n..hi];
  }

  /** Bytes of the first character of s. */
  function Width(s: seq<Byte>): (n: nat)
    requires s != []
    ensures 1 <= n <= 2
  {
    if IsDbcs1(s[0]) then 2 else 1
  }

  /** The name with one more character, in the body or in the extension. */
  function Grow(f: seq<Byte>, i: nat, t: seq<Byte>): (r: seq<Byte>)
    requires |f| == 11 && i + |t| <= 11
    ensures |r| == 11
  {
    f[..i] + t + f[i + |t|..]
  }

  /** create_name over one character. */
  lemma ParseOne(p: seq<Byte>, si: nat, i: nat, ni: nat, f: seq<Byte>, t: seq<Byte>)
    requires |f| == 11 && (ni == 8 || ni == 11) && t != [] && Characters(t) && i + Width(t) <= ni
    requires At(p, si) == t[0] && (|t| > 1 ==> At(p, si + 1) == t[1])
    ensures Width(t) <= |t| && Characters(t[Width(t)..])
    ensures Parse(p, si, i, ni, f) == Parse(p, si + Width(t), i + Width(t), ni, Grow(f, i, Capitals(t[..Width(t)])))
  {
    if Width(t) == 2 {
      assert Capitals(t[..2]) == t[..2];
      assert f[i := t[0]][i + 1 := t[1]] == Grow(f, i, t[..2]);
    } else {
      assert Capitals(t[..1]) == [Upper(t[0])];
      assert f[i := Upper(t[0])] == Grow(f, i, [Upper(t[0])]);
    }
  }

  lemma GrowForm(b: seq<Byte>, e: seq<Byte>, i: nat, ni: nat, t: seq<Byte>)
    requires Place(i, ni, b, e) && i + |t| <= ni
    ensures ni == 8 ==> Grow(Form(b, e), i, t) == Form(b + t, e)
    ensures ni == 11 ==> Grow(Form(b, e), i, t) == Form(b, e + t)
  {
  }

  /** create_name over characters as they are typed. */
  lemma {:induction false} ParseChars(p: seq<Byte>, si: nat, i: nat, ni: nat, b: seq<Byte>, e: seq<Byte>, t: seq<Byte>)
    requires Place(i, ni, b, e) && Characters(t) && si + |t| <= |p| && p[si..si + |t|] == t && i + |t| <= ni
    ensures ni == 8 ==> Parse(p, si, i, ni, Form(b, e)) == Parse(p, si + |t|, i + |t|, ni, Form(b + Capitals(t), e))
    ensures ni == 11 ==> Parse(p, si, i, ni, Form(b, e)) == Parse(p, si + |t|, i + |t|, ni, Form(b, e + Capitals(t)))
    decreases |t|
  {
    hide Form, Parse, Characters, Capitals, Grow, Plain;
    EmptyIsCharacters();
    if t == [] {
      NothingMore(b);
      NothingMore(e);
    } else {
      var n := Width(t);
      WidthFits(t);
      Tail(p, si, t, n);
      ParseOne(p, si, i, ni, Form(b, e), t);
      var u := Capitals(t[..n]);
      GrowForm(b, e, i, ni, u);
      var b1, e1 := if ni == 8 then b + u else b, if ni == 8 then e else e + u;
      ParseChars(p, si + n, i + n, ni, b1, e1, t[n..]);
      CharactersAppend(t[..n], t[n..]);
      assert t == t[..n] + t[n..];
      Reassociate(b, Capitals(t), n);
      Reassociate(e, Capitals(t), n);
    }
  }

  lemma WidthFits(t: seq<Byte>)
    requires t != [] && Characters(t)
    ensures Width(t) <= |t| && Characters(t[..Width(t)]) && Characters(t[Width(t)..])
  {
    hide Plain, Characters, Capitals;
    CapitalsSplit(t);
  }

  lemma Reassociate(b: seq<Byte>, t: seq<Byte>, n: nat)
    requires n <= |t|
    ensures b + t[..n] + t[n..] == b + t
  {
  }

  lemma NothingMore(b: seq<Byte>)
    ensures b + [] == b
  {
  }

  /** A segment parses to the stored form of its capitals, with the index behind the byte that ends it. */
  lemma SegmentParses(p: seq<Byte>, tb: seq<Byte>, te: seq<Byte>, dot: bool, n: nat)
    requires Segment(p, tb, te, dot, n)
    ensures Parse(p, 0, 0, 8, Spaces(11)) == Good(Stored(Capitals(tb), Capitals(te)), n + 1)
  {
    hide Form, Characters, Capitals, Plain;
    EmptyIsCharacters();
    var b, e := Capitals(tb), Capitals(te);
    assert p[0..0 + |tb|] == p[..n][..|tb|] == tb && [] + b == b;
    ParseChars(p, 0, 0, 8, [], [], tb);
    if dot {
      assert At(p, |tb|) == p[..n][|tb|] == DOT;
      assert p[|tb| + 1..|tb| + 1 + |te|] == p[..n][|tb| + 1..] == te && [] + e == e;
      ParseChars(p, |tb| + 1, 8, 11, b, [], te);
    }
  }

  /** What create_name makes of a path: it accepts exactly the segments, and stores their capitals. */
  ghost predicate Meaning(p: seq<Byte>, r: Parsed) {
    && (r.Good? <==> exists tb, te, dot, n: nat :: Segment(p, tb, te, dot, n))
    && forall tb, te, dot, n: nat :: Segment(p, tb, te, dot, n) ==> r == Good(Stored(Capitals(tb), Capitals(te)), n + 1)
  }

  lemma ParseMeans(p: seq<Byte>)
    ensures Meaning(p, Parse(p, 0, 0, 8, Spaces(11)))
  {
    hide Form, Characters, Capitals, Plain, Parse, Stored;
    forall tb, te, dot, n: nat | Segment(p, tb, te, dot, n)
      ensures Parse(p, 0, 0, 8, Spaces(11)) == Good(Stored(Capitals(tb), Capitals(te)), n + 1)
    {
      SegmentParses(p, tb, te, dot, n);
    }
    if Parse(p, 0, 0, 8, Spaces(11)).Good? {
      EmptyIsCharacters();
      var tb, te, dot, n := ParseIsSegment(p, 0, 0, 8, Spaces(11), [], []);
    }
  }

  /** A segment that a slash and more path follow: the index is that of what follows. */
  lemma NextSegment(tb: seq<Byte>, te: seq<Byte>, dot: bool, rest: seq<Byte>)
    requires |tb| <= 8 && |te| <= 3 && Characters(tb) && Characters(te) && (te != [] ==> dot) && (tb != [] || dot)
    ensures var t := Typed(tb, te, dot);
            Parse(t + [0x2F] + rest, 0, 0, 8, Spaces(11)) == Good(Stored(Capitals(tb), Capitals(te)), |t| + 1)
  {
    hide Form, Characters, Capitals;
    var t := Typed(tb, te, dot);
    var p := t + [0x2F] + rest;
    assert p[..|t|] == t && p[|t|] == 0x2F;
    SegmentParses(p, tb, te, dot, |t|);
  }

  /** The 11 bytes, one by one. */
  lemma StoredBytes(b: seq<Byte>, e: seq<Byte>, k: nat)
    requires |b| <= 8 && |e| <= 3 && k < 11
    ensures Stored(b, e)[k] == if k < |b| then (if k == 0 && b[0] == 0xE5 then 0x05 else b[k])
                               else if 8 <= k < 8 + |e| then e[k - 8] else 0x20
  {
  }

  /** The same characters, but that a letter may be a small one in one and a capital one in the other. */
  ghost predicate Alike(t: seq<Byte>, u: seq<Byte>) {
    if t == [] || u == [] then t == u
    else if Leads(t[0]) || Leads(u[0]) then |t| >= 2 && |u| >= 2 && t[..2] == u[..2] && Alike(t[2..], u[2..])
    else (t[0] == u[0] || (0x61 <= t[0] <= 0x7A && u[0] == t[0] - 0x20) || (0x61 <= u[0] <= 0x7A && t[0] == u[0] - 0x20)) && Alike(t[1..], u[1..])
  }

  lemma {:induction false} AlikeIs(t: seq<Byte>, u: seq<Byte>)
    requires Characters(t) && Characters(u)
    ensures Alike(t, u) <==> Capitals(t) == Capitals(u)
  {
    hide Plain;
    if t != [] && u != [] {
      var n := if Leads(t[0]) then 2 else 1;
      var c, d := Capitals(t), Capitals(u);
      assert Leads(c[0]) <==> Leads(t[0]);
      assert Leads(d[0]) <==> Leads(u[0]);
      if Leads(t[0]) <==> Leads(u[0]) {
        AlikeIs(t[n..], u[n..]);
        assert c[n..] == Capitals(t[n..]) && d[n..] == Capitals(u[n..]);
        assert c == c[..n] + c[n..] && d == d[..n] + d[n..];
        assert n == 2 ==> c[..2] == t[..2] && d[..2] == u[..2];
      }
    }
  }

  lemma Recovered(b: seq<Byte>, e: seq<Byte>)
    requires |b| <= 8 && |e| <= 3 && Chars(b) && Chars(e)
    ensures Shown(Field(Stored(b, e)[..8])) == b && Field(Stored(b, e)[8..]) == e
  {
    hide Chars, Field, Shown, Stored, Hidden, Form, Spaces;
    CharsAbove(b);
    CharsAbove(e);
    StoredParts(b, e);
    ShownHidden(b);
    FieldOfPadded(Hidden(b), 8 - |b|);
    FieldOfPadded(e, 3 - |e|);
  }

  /** Different names are stored differently. */
  lemma StoredDiffers(b: seq<Byte>, e: seq<Byte>, b2: seq<Byte>, e2: seq<Byte>)
    requires |b| <= 8 && |e| <= 3 && Chars(b) && Chars(e) && |b2| <= 8 && |e2| <= 3 && Chars(b2) && Chars(e2)
    ensures Stored(b, e) == Stored(b2, e2) <==> b == b2 && e == e2
  {
    hide Chars, Field, Shown, Stored;
    Recovered(b, e);
    Recovered(b2, e2);
  }

  /** Two segments name the same file if and only if their bodies and their extensions differ at most in small and
      capital letters; a dot behind a body without extension does not matter. */
  lemma SameName(p: seq<Byte>, tb: seq<Byte>, te: seq<Byte>, dot: bool, n: nat, q: seq<Byte>, ub: seq<Byte>, ue: seq<Byte>, dot2: bool, m: nat)
    requires Segment(p, tb, te, dot, n) && Segment(q, ub, ue, dot2, m)
    ensures Parse(p, 0, 0, 8, Spaces(11)).Good? && Parse(q, 0, 0, 8, Spaces(11)).Good?
    ensures Parse(p, 0, 0, 8, Spaces(11)).sfn == Parse(q, 0, 0, 8, Spaces(11)).sfn <==> Alike(tb, ub) && Alike(te, ue)
  {
    hide Form, Characters, Capitals, Alike, Chars, Parse, Stored;
    SegmentParses(p, tb, te, dot, n);
    SegmentParses(q, ub, ue, dot2, m);
    CapitalsAreChars(tb);
    CapitalsAreChars(te);
    CapitalsAreChars(ub);
    CapitalsAreChars(ue);
    StoredDiffers(Capitals(tb), Capitals(te), Capitals(ub), Capitals(ue));
    AlikeIs(tb, ub);
    AlikeIs(te, ue);
  }

  /** The text of a name parses to its stored form. */
  lemma ParseText(b: seq<Byte>, e: seq<Byte>)
    requires |b| <= 8 && |e| <= 3 && Chars(b) && Chars(e) && (b != [] || e != [])
    ensures Parse(Text(b, e), 0, 0, 8, Spaces(11)) == Good(Stored(b, e), |Text(b, e)| + 1)
  {
    hide Form, Chars, Characters, Capitals;
    CharsAreCapitals(b);
    CharsAreCapitals(e);
    assert Text(b, e)[..|Text(b, e)|] == Text(b, e);
    SegmentParses(Text(b, e), b, e, e != [], |Text(b, e)|);
  }

  /** What create_name accepts has the stored form of some characters before and after the dot. */
  lemma ParseHasForm(p: seq<Byte>) returns (b: seq<Byte>, e: seq<Byte>)
    requires Parse(p, 0, 0, 8, Spaces(11)).Good?
    ensures |b| <= 8 && |e| <= 3 && Chars(b) && Chars(e)
    ensures Parse(p, 0, 0, 8, Spaces(11)).sfn == Stored(b, e)
  {
    hide Form, Chars, Parse, Characters, Capitals;
    EmptyIsCharacters();
    var tb, te, _, _ := ParseIsSegment(p, 0, 0, 8, Spaces(11), [], []);
    CapitalsAreChars(tb);
    CapitalsAreChars(te);
    b, e := Capitals(tb), Capitals(te);
  }

  lemma {:induction false} FieldOfPadded(s: seq<Byte>, n: nat)
    requires forall k :: 0 <= k < |s| ==> s[k] != SPACE
    ensures Field(s + Spaces(n)) == s
  {
    if s != [] {
      FieldOfPadded(s[1..], n);
      assert (s + Spaces(n))[1..] == s[1..] + Spaces(n);
    } else {
      assert s + Spaces(n) == Spaces(n);
    }
  }

  /** get_fileinfo prints the text of a name from its stored form. */
  lemma PrintStored(b: seq<Byte>, e: seq<Byte>)
    requires |b| <= 8 && |e| <= 3 && Chars(b) && Chars(e)
    ensures Print(Stored(b, e)) == Text(b, e)
  {
    hide Chars, Field, Shown, Stored, Hidden, Form, Spaces;
    StoredParts(b, e);
    Recovered(b, e);
    CharsAbove(e);
  }

  /** A body whose first byte 0xE5 is replaced. */
  function Hidden(b: seq<Byte>): (r: seq<Byte>)
    ensures |r| == |b|
  {
    if b != [] && b[0] == 0xE5 then b[0 := 0x05] else b
  }

  lemma StoredParts(b: seq<Byte>, e: seq<Byte>)
    requires |b| <= 8 && |e| <= 3
    ensures Stored(b, e)[..8] == Hidden(b) + Spaces(8 - |b|) && Stored(b, e)[8..] == e + Spaces(3 - |e|)
    ensures Stored(b, e)[8] == if e == [] then SPACE else e[0]
  {
    var f := Form(b, e);
    assert f[0] == if b == [] then SPACE else b[0];
    var g := Stored(b, e);
    assert g[..8] == Hidden(b) + Spaces(8 - |b|);
    assert g[8..] == e + Spaces(3 - |e|);
  }

  lemma ShownHidden(b: seq<Byte>)
    requires forall k :: 0 <= k < |b| ==> b[k] > SPACE
    ensures Shown(Hidden(b)) == b && forall k :: 0 <= k < |b| ==> Hidden(b)[k] != SPACE
  {
  }

  /** Every segment that create_name accepts, other than a lone dot, is printed by get_fileinfo as a text
      that create_name turns into the same 11 bytes. */
  lemma RoundTrip(p: seq<Byte>)
    requires Parse(p, 0, 0, 8, Spaces(11)).Good? && !LoneDot(p)
    ensures var sfn := Parse(p, 0, 0, 8, Spaces(11)).sfn;
            Parse(Print(sfn), 0, 0, 8, Spaces(11)) == Good(sfn, |Print(sfn)| + 1)
  {
    hide Chars, Form, Parse, Print;
    var b, e := ParseHasForm(p);
    NotBlank(p, b, e);
    PrintStored(b, e);
    ParseText(b, e);
  }

  /** The segment is a dot and nothing else. */
  predicate LoneDot(p: seq<Byte>) {
    At(p, 0) == DOT && Ends(At(p, 1))
  }

  /** A lone dot is accepted, as a name of spaces; its text is empty, which is not accepted. */
  lemma LoneDotFails(p: seq<Byte>)
    requires LoneDot(p)
    ensures Parse(p, 0, 0, 8, Spaces(11)) == Good(Spaces(11), 2)
    ensures Print(Spaces(11)) == [] && Parse([], 0, 0, 8, Spaces(11)) == Bad
  {
    assert Spaces(11)[..8][0] == SPACE;
  }

  lemma NotBlank(p: seq<Byte>, b: seq<Byte>, e: seq<Byte>)
    requires |b| <= 8 && |e| <= 3 && Chars(b) && Chars(e) && !LoneDot(p)
    requires Parse(p, 0, 0, 8, Spaces(11)).Good? && Parse(p, 0, 0, 8, Spaces(11)).sfn == Stored(b, e)
    ensures b != [] || e != []
  {
    if b == [] && e == [] {
      FirstKept(p);
    }
  }

  /** A byte that has been put into the name stays there; a first byte may become 0x05. */
  lemma {:induction false} DoneStays(p: seq<Byte>, si: nat, i: nat, ni: nat, sfn: seq<Byte>, k: nat)
    requires |sfn| == 11 && k < i <= ni && (ni == 8 || ni == 11) && sfn[k] != SPACE && Parse(p, si, i, ni, sfn).Good?
    ensures Parse(p, si, i, ni, sfn).sfn[k] != SPACE
    decreases |p| - si
  {
    hide IsDbcs1, IsDbcs2, Illegal, IsLower;
    var c := At(p, si);
    if Ends(c) {
    } else if c == DOT || i >= ni {
      DoneStays(p, si + 1, 8, 11, sfn, k);
    } else if IsDbcs1(c) {
      DoneStays(p, si + 2, i + 2, ni, sfn[i := c][i + 1 := At(p, si + 1)], k);
    } else {
      DoneStays(p, si + 1, i + 1, ni, sfn[i := Upper(c)], k);
    }
  }

  /** A character that ends nothing leaves a byte in the name. */
  lemma OneStays(p: seq<Byte>, si: nat, i: nat, ni: nat, sfn: seq<Byte>)
    requires |sfn| == 11 && i < ni && (ni == 8 || ni == 11) && Parse(p, si, i, ni, sfn).Good?
    requires !Ends(At(p, si)) && At(p, si) != DOT
    ensures Parse(p, si, i, ni, sfn).sfn[i] != SPACE
  {
    var c := At(p, si);
    if IsDbcs1(c) {
      DoneStays(p, si + 2, i + 2, ni, sfn[i := c][i + 1 := At(p, si + 1)], i);
    } else {
      DoneStays(p, si + 1, i + 1, ni, sfn[i := Upper(c)], i);
    }
  }

  /** The first character, at the start or after a leading dot, stays in the name. */
  lemma FirstKept(p: seq<Byte>)
    requires Parse(p, 0, 0, 8, Spaces(11)).Good? && !LoneDot(p)
    ensures Parse(p, 0, 0, 8, Spaces(11)).sfn != Spaces(11)
  {
    if At(p, 0) == DOT {
      OneStays(p, 1, 8, 11, Spaces(11));
    } else {
      OneStays(p, 0, 0, 8, Spaces(11));
    }
  }

  /** What create_name accepts marks neither a deleted entry nor the end of a table. */
  lemma NameIsProper(p: seq<Byte>)
    requires Parse(p, 0, 0, 8, Spaces(11)).Good?
    ensures Parse(p, 0, 0, 8, Spaces(11)).sfn[0] != 0xE5 && Parse(p, 0, 0, 8, Spaces(11)).sfn[0] != 0
  {
    hide Chars, Parse;
    var b, e := ParseHasForm(p);
    CharsAbove(b);
    assert Form(b, e)[0] == if b == [] then SPACE else b[0];
  }
}
