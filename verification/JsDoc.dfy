/**
 `JSDoc`: taking the common indentation off a doc comment, and writing it out as one
 JavaScript comment.
 */
module JsDoc {
  import opened Sequences
  import opened Wrappers

  // `char::is_whitespace`
  predicate IsSpace(c: char) {
    var n := c as int;
    || 0x09 <= n <= 0x0D || n == 0x20 || n == 0x85 || n == 0xA0 || n == 0x1680
    || 0x2000 <= n <= 0x200A || n == 0x2028 || n == 0x2029 || n == 0x202F || n == 0x205F || n == 0x3000
  }

  // The bytes of a character in UTF-8.
  function Width(c: char): (w: nat)
    ensures 1 <= w <= 4
  {
    var n := c as int;
    if n < 0x80 then 1 else if n < 0x800 then 2 else if n < 0x10000 then 3 else 4
  }

  function Bytes(s: string): nat {
    if s == "" then 0 else Width(s[0]) + Bytes(s[1..])
  }

  // How many characters the whitespace at the front has.
  function Lead(s: string): (n: nat)
    ensures n <= |s|
    ensures forall i | 0 <= i < n :: IsSpace(s[i])
    ensures n < |s| ==> !IsSpace(s[n])
  {
    if s != "" && IsSpace(s[0]) then 1 + Lead(s[1..]) else 0
  }

  predicate Blank(s: string) {
    Lead(s) == |s|
  }

  // Bytes of whitespace at the front: the length less that of `trim_start`.
  function Indent(s: string): nat {
    Bytes(s[..Lead(s)])
  }

  // `s[n..]` on bytes; None where the slice would cut a character, or lies past the end.
  function DropBytes(s: string, n: nat): Option<string> {
    if n == 0 then Some(s)
    else if s == "" || Width(s[0]) > n then None
    else DropBytes(s[1..], n - Width(s[0]))
  }

  function FirstNonBlank(raw: seq<string>): (i: nat)
    ensures i <= |raw|
    ensures forall k | 0 <= k < i :: Blank(raw[k])
    ensures i < |raw| ==> !Blank(raw[i])
  {
    if raw == [] || !Blank(raw[0]) then 0 else 1 + FirstNonBlank(raw[1..])
  }

  // One more than the last non-blank line's index.
  function LastNonBlankEnd(raw: seq<string>): (i: nat)
    ensures i <= |raw|
    ensures forall k | i <= k < |raw| :: Blank(raw[k])
    ensures i > 0 ==> !Blank(raw[i - 1])
  {
    if raw == [] || !Blank(raw[|raw| - 1]) then |raw| else LastNonBlankEnd(raw[..|raw| - 1])
  }

  function Middle(raw: seq<string>): (mid: seq<string>)
    ensures mid != [] ==> !Blank(mid[0]) && !Blank(mid[|mid| - 1])
    ensures mid == [] <==> forall k | 0 <= k < |raw| :: Blank(raw[k])
  {
    if FirstNonBlank(raw) < LastNonBlankEnd(raw) then raw[FirstNonBlank(raw)..LastNonBlankEnd(raw)] else []
  }

  function Least(lines: seq<string>): Option<nat> {
    if lines == [] then None
    else
      var rest := Least(lines[1..]);
      if Blank(lines[0]) then rest
      else if rest.Some? && rest.value <= Indent(lines[0]) then rest
      else Some(Indent(lines[0]))
  }

  function MinIndent(lines: seq<string>): nat {
    match Least(lines)
    case Some(n) => n
    case None => 0
  }

  function Dedented(line: string, minIndent: nat): Option<string> {
    if Blank(line) then Some("")
    else if Bytes(line) >= minIndent then DropBytes(line, minIndent)
    else Some(line)
  }

  function AllDedented(lines: seq<string>, minIndent: nat): Option<seq<string>> {
    if lines == [] then Some([])
    else
      match (Dedented(lines[0], minIndent), AllDedented(lines[1..], minIndent))
      case (Some(line), Some(rest)) => Some([line] + rest)
      case _ => None
  }

  // None where the original panics.
  function CleanupLines(raw: seq<string>): Option<seq<string>> {
    AllDedented(Middle(raw), MinIndent(Middle(raw)))
  }

  // ----- dedenting

  lemma {:induction false} BytesSplit(a: string, b: string)
    ensures Bytes(a + b) == Bytes(a) + Bytes(b)
  {
    if a == "" {
      assert a + b == b;
    } else {
      assert (a + b)[1..] == a[1..] + b;
      BytesSplit(a[1..], b);
    }
  }

  // A slice by bytes cuts at a character: the part before it is that many bytes.
  lemma {:induction false} DropBytesCuts(s: string, n: nat) returns (k: nat)
    requires DropBytes(s, n).Some?
    ensures k <= |s| && DropBytes(s, n) == Some(s[k..]) && Bytes(s[..k]) == n
  {
    if n == 0 {
      k := 0;
    } else {
      var j := DropBytesCuts(s[1..], n - Width(s[0]));
      k := j + 1;
      assert s[1..][j..] == s[k..] && s[..k][1..] == s[1..][..j];
    }
  }

  lemma {:induction false} BytesOfMore(s: string, j: nat, k: nat)
    requires j <= k <= |s|
    ensures Bytes(s[..j]) <= Bytes(s[..k])
    ensures j < k ==> Bytes(s[..j]) < Bytes(s[..k])
  {
    assert s[..j] + s[j..k] == s[..k];
    BytesSplit(s[..j], s[j..k]);
    if j < k {
      assert Bytes(s[j..k]) == Width(s[j..k][0]) + Bytes(s[j..k][1..]);
    }
  }

  lemma {:induction false} LeadOfRest(s: string, k: nat)
    requires k <= Lead(s)
    ensures Lead(s[k..]) == Lead(s) - k
  {
    if k > 0 {
      assert s[1..][k - 1..] == s[k..];
      LeadOfRest(s[1..], k - 1);
    } else {
      assert s[0..] == s;
    }
  }

  // Taking whitespace off the front leaves the rest of the indentation.
  lemma DedentedKeepsTheRest(line: string, n: nat)
    requires !Blank(line) && n <= Indent(line) && Dedented(line, n).Some?
    ensures var d := Dedented(line, n).value;
      !Blank(d) && Indent(d) + n == Indent(line) && |d| <= |line| && line[|line| - |d|..] == d
  {
    assert line[..Lead(line)] + line[Lead(line)..] == line;
    BytesSplit(line[..Lead(line)], line[Lead(line)..]);
    var k := DropBytesCuts(line, n);
    if k > Lead(line) {
      BytesOfMore(line, Lead(line), k);
      assert false;
    }
    LeadOfRest(line, k);
    assert line[..Lead(line)] == line[..k] + line[k..][..Lead(line) - k];
    BytesSplit(line[..k], line[k..][..Lead(line) - k]);
  }

  lemma {:induction false} LeastIsLeast(lines: seq<string>)
    ensures Least(lines) == None <==> forall i | 0 <= i < |lines| :: Blank(lines[i])
    ensures Least(lines).Some? ==>
      && (forall i | 0 <= i < |lines| && !Blank(lines[i]) :: Least(lines).value <= Indent(lines[i]))
      && exists i :: 0 <= i < |lines| && !Blank(lines[i]) && Indent(lines[i]) == Least(lines).value
  {
    if lines != [] {
      var rest := lines[1..];
      LeastIsLeast(rest);
      assert forall i | 0 <= i < |rest| :: rest[i] == lines[i + 1];
      if Least(rest).Some? {
        var i :| 0 <= i < |rest| && !Blank(rest[i]) && Indent(rest[i]) == Least(rest).value;
        assert !Blank(lines[i + 1]) && Indent(lines[i + 1]) == Least(rest).value;
      }
      forall i | 0 <= i < |lines| && !Blank(lines[i])
        ensures Least(lines).Some? && Least(lines).value <= Indent(lines[i])
      {
        assert i > 0 ==> lines[i] == rest[i - 1];
      }
    }
  }

  lemma {:induction false} AllDedentedAt(lines: seq<string>, n: nat)
    ensures AllDedented(lines, n).Some? <==> forall i | 0 <= i < |lines| :: Dedented(lines[i], n).Some?
    ensures var r := AllDedented(lines, n);
      r.Some? ==> |r.value| == |lines| && forall i | 0 <= i < |lines| :: Dedented(lines[i], n) == Some(r.value[i])
  {
    if lines != [] {
      var rest := lines[1..];
      AllDedentedAt(rest, n);
      assert forall i | 0 <= i < |rest| :: rest[i] == lines[i + 1];
      if forall i | 0 <= i < |lines| :: Dedented(lines[i], n).Some? {
        assert forall i | 0 <= i < |rest| :: Dedented(rest[i], n).Some?;
      }
    }
  }

  ghost predicate DedentedBy(v: seq<string>, mid: seq<string>, n: nat) {
    |v| == |mid| && forall i | 0 <= i < |mid| ::
      if Blank(mid[i]) then v[i] == ""
      else !Blank(v[i]) && Indent(v[i]) + n == Indent(mid[i])
           && |v[i]| <= |mid[i]| && mid[i][|mid[i]| - |v[i]|..] == v[i]
  }

  // Nothing but blank lines is cut from the two ends.
  lemma MiddleCutsBlanks(raw: seq<string>) returns (lo: nat, hi: nat)
    ensures lo <= hi <= |raw| && Middle(raw) == raw[lo..hi]
    ensures forall k | 0 <= k < lo || hi <= k < |raw| :: Blank(raw[k])
  {
    lo, hi := FirstNonBlank(raw), LastNonBlankEnd(raw);
    if lo >= hi {
      lo := hi;
    }
  }

  // What is left is the middle of the comment, from the first to the last line that is not
  // blank, each such line having lost one and the same number of bytes of whitespace, all
  // that they have in common: differences in indentation stay.
  lemma CleanedIsDedented(raw: seq<string>)
    requires CleanupLines(raw).Some?
    ensures var (v, mid) := (CleanupLines(raw).value, Middle(raw));
      && DedentedBy(v, mid, MinIndent(mid))
      && (v == [] <==> forall k | 0 <= k < |raw| :: Blank(raw[k]))
      && (v != [] ==> !Blank(v[0]) && !Blank(v[|v| - 1]) && MinIndent(v) == 0)
  {
    var v, mid := CleanupLines(raw).value, Middle(raw);
    LinesAreDedented(v, mid, MinIndent(mid));
    MiddleEnds(raw);
    if v != [] {
      NoIndentLeft(v, mid);
    }
  }

  lemma MiddleEnds(raw: seq<string>)
    ensures var mid := Middle(raw);
      && (mid == [] <==> forall k | 0 <= k < |raw| :: Blank(raw[k]))
      && (mid != [] ==> !Blank(mid[0]) && !Blank(mid[|mid| - 1]))
  {
  }

  lemma NoIndentLeft(v: seq<string>, mid: seq<string>)
    requires DedentedBy(v, mid, MinIndent(mid)) && mid != [] && !Blank(mid[0])
    ensures MinIndent(v) == 0
  {
    LeastIsLeast(mid);
    LeastIsLeast(v);
    var i :| 0 <= i < |mid| && !Blank(mid[i]) && Indent(mid[i]) == MinIndent(mid);
    assert !Blank(v[i]) && Indent(v[i]) == 0;
  }

  lemma LinesAreDedented(v: seq<string>, mid: seq<string>, n: nat)
    requires AllDedented(mid, n) == Some(v) && n == MinIndent(mid)
    ensures DedentedBy(v, mid, n)
  {
    AllDedentedAt(mid, n);
    LeastIsLeast(mid);
    forall i | 0 <= i < |mid| && !Blank(mid[i])
      ensures !Blank(v[i]) && Indent(v[i]) + n == Indent(mid[i])
        && |v[i]| <= |mid[i]| && mid[i][|mid[i]| - |v[i]|..] == v[i]
    {
      assert Dedented(mid[i], n) == Some(v[i]);
      DedentedKeepsTheRest(mid[i], n);
    }
    forall i | 0 <= i < |mid| && Blank(mid[i])
      ensures v[i] == ""
    {
      assert Dedented(mid[i], n) == Some(v[i]);
    }
  }

  lemma FirstOf(raw: seq<string>)
    requires raw != [] && !Blank(raw[0]) && !Blank(raw[|raw| - 1])
    ensures Middle(raw) == raw
  {
    assert raw[0..|raw|] == raw;
  }

  lemma {:induction false} NothingToTake(lines: seq<string>)
    requires forall i | 0 <= i < |lines| && Blank(lines[i]) :: lines[i] == ""
    ensures AllDedented(lines, 0) == Some(lines)
  {
    if lines != [] {
      NothingToTake(lines[1..]);
      assert Dedented(lines[0], 0) == Some(lines[0]);
      assert [lines[0]] + lines[1..] == lines;
    }
  }

  // Cleaning what was cleaned changes nothing, and cannot panic.
  lemma Idempotent(raw: seq<string>)
    requires CleanupLines(raw).Some?
    ensures CleanupLines(CleanupLines(raw).value) == CleanupLines(raw)
  {
    var v := CleanupLines(raw).value;
    CleanedIsDedented(raw);
    BlanksAreEmpty(v, Middle(raw), MinIndent(Middle(raw)));
    if v == [] {
      assert Middle(v) == [];
    } else {
      FirstOf(v);
    }
    NothingToTake(v);
  }

  lemma BlanksAreEmpty(v: seq<string>, mid: seq<string>, n: nat)
    requires DedentedBy(v, mid, n)
    ensures forall i | 0 <= i < |v| && Blank(v[i]) :: v[i] == ""
  {
    forall i | 0 <= i < |v| && Blank(v[i])
      ensures v[i] == ""
    {
      assert Blank(mid[i]);
    }
  }

  // ----- when it panics

  predicate NarrowIndent(s: string) {
    forall i | 0 <= i < Lead(s) :: Width(s[i]) == 1
  }

  // Some number of the characters at the front of `s` is exactly `n` bytes.
  ghost predicate CutsAt(s: string, n: nat) {
    exists k :: 0 <= k <= |s| && Bytes(s[..k]) == n
  }

  lemma {:induction false} DropBytesExactly(s: string, n: nat)
    ensures DropBytes(s, n).Some? <==> CutsAt(s, n)
  {
    if DropBytes(s, n).Some? {
      var k := DropBytesCuts(s, n);
    }
    if CutsAt(s, n) && n > 0 {
      var k :| 0 <= k <= |s| && Bytes(s[..k]) == n;
      assert s[..k][1..] == s[1..][..k - 1] && s[..k][0] == s[0];
      DropBytesExactly(s[1..], n - Width(s[0]));
    }
  }

  // Cleaning succeeds if and only if the common indentation ends between two characters on
  // every line that is not blank.
  lemma CleansExactly(raw: seq<string>)
    ensures var mid := Middle(raw);
      CleanupLines(raw).Some?
      <==> forall i | 0 <= i < |mid| && !Blank(mid[i]) :: CutsAt(mid[i], MinIndent(mid))
  {
    var mid := Middle(raw);
    var n := MinIndent(mid);
    AllDedentedAt(mid, n);
    LeastIsLeast(mid);
    forall i | 0 <= i < |mid| && !Blank(mid[i])
      ensures Dedented(mid[i], n).Some? <==> CutsAt(mid[i], n)
    {
      LineCutsExactly(mid[i], n);
    }
    assert forall i | 0 <= i < |mid| && Blank(mid[i]) :: Dedented(mid[i], n).Some?;
  }

  lemma LineCutsExactly(line: string, n: nat)
    requires !Blank(line) && n <= Indent(line)
    ensures Dedented(line, n).Some? <==> CutsAt(line, n)
  {
    DropBytesExactly(line, n);
    assert line[..Lead(line)] + line[Lead(line)..] == line;
    BytesSplit(line[..Lead(line)], line[Lead(line)..]);
  }

  lemma {:induction false} NarrowBytes(s: string)
    requires forall i | 0 <= i < |s| :: Width(s[i]) == 1
    ensures Bytes(s) == |s|
  {
    if s != "" {
      NarrowBytes(s[1..]);
    }
  }

  // Lines indented with single-byte whitespace, such as blanks and tabs, always clean.
  lemma NarrowIndentCleans(raw: seq<string>)
    requires forall i | 0 <= i < |raw| :: NarrowIndent(raw[i])
    ensures CleanupLines(raw).Some?
  {
    var mid := Middle(raw);
    LeastIsLeast(mid);
    forall i | 0 <= i < |mid| && !Blank(mid[i])
      ensures CutsAt(mid[i], MinIndent(mid))
    {
      var line, n := mid[i], MinIndent(mid);
      assert exists k :: 0 <= k < |raw| && raw[k] == line;
      NarrowBytes(line[..Lead(line)]);
      NarrowBytes(line[..n]);
    }
    CleansExactly(raw);
  }

  // A no-break space is two bytes: next to a line indented by one blank it is cut in two.
  lemma WideIndentPanics()
    ensures CleanupLines(["\U{00A0}a", " b"]) == None
  {
    var a, b := "\U{00A0}a", " b";
    var raw := [a, b];
    assert a[1..] == "a" && b[1..] == "b" && "a"[1..] == "" && "b"[1..] == "";
    assert Lead("a") == 0 && Lead("b") == 0 && Lead(a) == 1 && Lead(b) == 1;
    assert a[..1] == [a[0]] && b[..1] == [b[0]] && [a[0]][1..] == "" && [b[0]][1..] == "";
    assert Indent(a) == 2 && Indent(b) == 1;
    FirstOf(raw);
    assert raw[1..] == [b] && [b][1..] == [];
    assert Least([b]) == Some(1) && Least(raw) == Some(1);
    assert Dedented(a, 1) == None;
  }

  // ----- the comment

  // No block is empty, and none would be cleaned any further.
  predicate Tidy(blocks: seq<seq<string>>) {
    forall i | 0 <= i < |blocks| :: blocks[i] != [] && CleanupLines(blocks[i]) == Some(blocks[i])
  }

  class Comment {
    var blocks: seq<seq<string>>

    constructor ()
      ensures blocks == []
    {
      blocks := [];
    }

    // False where the original panics.
    method AddBlock(lines: seq<string>) returns (ok: bool)
      modifies this
      ensures ok == CleanupLines(lines).Some?
      ensures blocks == old(blocks) + if ok && CleanupLines(lines).value != [] then [CleanupLines(lines).value] else []
      ensures old(Tidy(blocks)) ==> Tidy(blocks)
    {
      var v := CleanupLines(lines);
      if v.None? {
        return false;
      }
      Idempotent(lines);
      if v.value != [] {
        blocks := blocks + [v.value];
      }
      ok := true;
    }

    method Display() returns (f: string)
      ensures f == Rendered(blocks)
    {
      f := "";
      if |blocks| == 0 {
        return;
      }
      if |blocks| == 1 && |blocks[0]| == 1 {
        return "/** " + Escaped(blocks[0][0]) + " */\n";
      }
      f := f + "/**\n";
      assert blocks[0..] == blocks;
      for i := 0 to |blocks|
        invariant f + Body(blocks[i..]) == "/**\n" + Body(blocks)
      {
        var block := blocks[i];
        ghost var before := f;
        assert block[0..] == block;
        for j := 0 to |block|
          invariant f + BlockText(block[j..]) == before + BlockText(block)
        {
          LineStep(f, block[j..]);
          assert block[j..][1..] == block[j + 1..];
          f := f + (" * " + Escaped(block[j]) + "\n");
        }
        assert f + "" == f;
        assert blocks[i..][1..] == blocks[i + 1..];
        BlockStep(before, blocks[i..]);
        if i + 1 != |blocks| {
          f := f + " *\n";
        }
      }
      assert f + "" == f;
      f := f + " */\n";
    }
  }

  lemma LineStep(f: string, block: seq<string>)
    requires block != []
    ensures f + BlockText(block) == f + (" * " + Escaped(block[0]) + "\n") + BlockText(block[1..])
  {
    assert f + (" * " + Escaped(block[0]) + "\n" + BlockText(block[1..]))
      == f + (" * " + Escaped(block[0]) + "\n") + BlockText(block[1..]);
  }

  lemma BlockStep(f: string, blocks: seq<seq<string>>)
    requires blocks != []
    ensures f + Body(blocks)
      == (if |blocks| > 1 then f + BlockText(blocks[0]) + " *\n" else f + BlockText(blocks[0])) + Body(blocks[1..])
  {
    var bar := if |blocks| > 1 then " *\n" else "";
    Regroup4(f, BlockText(blocks[0]), bar, Body(blocks[1..]));
    assert bar == "" ==> f + BlockText(blocks[0]) + bar == f + BlockText(blocks[0]);
  }

  // `replace("*/", "*\\/")`
  function Escaped(s: string): string {
    if |s| < 2 then s
    else if s[0] == '*' && s[1] == '/' then "*\\/" + Escaped(s[2..])
    else [s[0]] + Escaped(s[1..])
  }

  function BlockText(block: seq<string>): string {
    if block == [] then "" else " * " + Escaped(block[0]) + "\n" + BlockText(block[1..])
  }

  function Body(blocks: seq<seq<string>>): string {
    if blocks == [] then ""
    else BlockText(blocks[0]) + (if |blocks| > 1 then " *\n" else "") + Body(blocks[1..])
  }

  function Rendered(blocks: seq<seq<string>>): string {
    if blocks == [] then ""
    else if |blocks| == 1 && |blocks[0]| == 1 then "/** " + Escaped(blocks[0][0]) + " */\n"
    else "/**\n" + Body(blocks) + " */\n"
  }

  // ----- the comment ends where it should

  predicate CloseAt(s: string, i: nat) {
    i + 1 < |s| && s[i] == '*' && s[i + 1] == '/'
  }

  predicate NoClose(s: string) {
    forall i | 0 <= i < |s| :: !CloseAt(s, i)
  }

  lemma {:induction false} EscapedHasNoClose(s: string)
    ensures NoClose(Escaped(s))
    ensures s != "" ==> Escaped(s) != "" && Escaped(s)[0] == s[0]
  {
    if |s| >= 2 {
      var rest := if s[0] == '*' && s[1] == '/' then s[2..] else s[1..];
      EscapedHasNoClose(rest);
      if s[0] == '*' && s[1] == '/' {
        Joins("*\\/", Escaped(rest));
      } else {
        Joins([s[0]], Escaped(rest));
      }
    }
  }

  // Two texts without a close make one, unless a star meets a slash.
  lemma Joins(a: string, b: string)
    requires NoClose(a) && NoClose(b)
    requires !(a != "" && b != "" && a[|a| - 1] == '*' && b[0] == '/')
    ensures NoClose(a + b)
  {
    forall i | 0 <= i < |a + b|
      ensures !CloseAt(a + b, i)
    {
      if i + 1 < |a| {
        assert !CloseAt(a, i);
      } else if i >= |a| {
        assert !CloseAt(b, i - |a|);
      }
    }
  }

  predicate StartsBlank(s: string) {
    s == "" || s[0] == ' '
  }

  lemma LineHasNoClose(line: string)
    ensures NoClose(" * " + Escaped(line) + "\n")
  {
    EscapedHasNoClose(line);
    Joins(" * ", Escaped(line));
    Joins(" * " + Escaped(line), "\n");
  }

  lemma {:induction false} BlockHasNoClose(block: seq<string>)
    ensures NoClose(BlockText(block)) && StartsBlank(BlockText(block))
  {
    if block != [] {
      LineHasNoClose(block[0]);
      BlockHasNoClose(block[1..]);
      Joins(" * " + Escaped(block[0]) + "\n", BlockText(block[1..]));
    }
  }

  lemma {:induction false} BodyHasNoClose(blocks: seq<seq<string>>)
    ensures NoClose(Body(blocks)) && StartsBlank(Body(blocks))
  {
    if blocks != [] {
      var text, bar := BlockText(blocks[0]), if |blocks| > 1 then " *\n" else "";
      BlockHasNoClose(blocks[0]);
      BodyHasNoClose(blocks[1..]);
      Joins(text, bar);
      Joins(text + bar, Body(blocks[1..]));
    }
  }

  lemma Closed(text: string)
    requires NoClose(text)
    ensures var r := text + " */\n";
      forall i: nat :: CloseAt(r, i) <==> i == |r| - 3
  {
    var r := text + " */\n";
    Joins(text, " *");
    assert r[|r| - 3] == '*' && r[|r| - 2] == '/' && r[|r| - 1] == '\n';
    forall i: nat
      ensures CloseAt(r, i) <==> i == |r| - 3
    {
      if i + 1 < |text + " *"| {
        assert (text + " *")[i] == r[i] && (text + " *")[i + 1] == r[i + 1];
        assert !CloseAt(text + " *", i);
      }
    }
  }

  // Whatever the lines hold, the comment is closed once, by its own end.
  lemma ClosedOnceAtTheEnd(blocks: seq<seq<string>>)
    requires blocks != []
    ensures var r := Rendered(blocks);
      && |r| > 3 && r[..3] == "/**" && r[|r| - 1] == '\n'
      && forall i: nat :: CloseAt(r, i) <==> i == |r| - 3
  {
    if |blocks| == 1 && |blocks[0]| == 1 {
      EscapedHasNoClose(blocks[0][0]);
      Joins("/** ", Escaped(blocks[0][0]));
      Closed("/** " + Escaped(blocks[0][0]));
    } else {
      BodyHasNoClose(blocks);
      Joins("/**\n", Body(blocks));
      Closed("/**\n" + Body(blocks));
    }
  }

  // Escaping changes no line but those that hold a close.
  lemma {:induction false} EscapedExactly(s: string)
    ensures Escaped(s) == s <==> NoClose(s)
  {
    if |s| >= 2 {
      if s[0] == '*' && s[1] == '/' {
        assert CloseAt(s, 0);
        assert Escaped(s)[1] != s[1];
      } else {
        EscapedExactly(s[1..]);
        assert s == [s[0]] + s[1..];
        if NoClose(s) {
          forall i | 0 <= i < |s[1..]|
            ensures !CloseAt(s[1..], i)
          {
            assert !CloseAt(s, i + 1);
          }
        } else {
          var i :| 0 <= i < |s| && CloseAt(s, i);
          assert CloseAt(s[1..], i - 1);
        }
      }
    }
  }

  // ----- the comment, read back

  // The text cut at its line breaks.
  function LinesOf(text: string): (r: seq<string>)
    ensures r != []
  {
    if text == "" then [""]
    else
      var rest := LinesOf(text[1..]);
      if text[0] == '\n' then [""] + rest else [[text[0]] + rest[0]] + rest[1..]
  }

  predicate OneLine(s: string) {
    '\n' !in s
  }

  lemma {:induction false} LineThenRest(line: string, rest: string)
    requires OneLine(line)
    ensures LinesOf(line + "\n" + rest) == [line] + LinesOf(rest)
  {
    var text := line + "\n" + rest;
    if line == "" {
      assert text[1..] == rest;
    } else {
      assert text[1..] == line[1..] + "\n" + rest;
      LineThenRest(line[1..], rest);
      assert [line[0]] + line[1..] == line;
    }
  }

  // The blocks in the lines of a body: a bare star parts two blocks, and the end closes the
  // last.
  function ReadBody(lines: seq<string>): (r: Option<seq<seq<string>>>)
    ensures r.Some? ==> r.value != []
  {
    if lines == [] then None
    else if lines[0] == " */" then Some([[]])
    else
      match ReadBody(lines[1..])
      case None => None
      case Some(blocks) =>
        if lines[0] == " *" then Some([[]] + blocks)
        else if |lines[0]| >= 3 && lines[0][..3] == " * " then Some([[lines[0][3..]] + blocks[0]] + blocks[1..])
        else None
  }

  function ReadComment(text: string): Option<seq<seq<string>>> {
    var lines := LinesOf(text);
    var first := lines[0];
    if first == "/**" then ReadBody(lines[1..])
    else if |first| >= 7 && first[..4] == "/** " && first[|first| - 3..] == " */" then Some([[first[4..|first| - 3]]])
    else None
  }

  function EscapedLines(block: seq<string>): seq<string> {
    seq(|block|, i requires 0 <= i < |block| => Escaped(block[i]))
  }

  function EscapedBlocks(blocks: seq<seq<string>>): seq<seq<string>> {
    seq(|blocks|, i requires 0 <= i < |blocks| => EscapedLines(blocks[i]))
  }

  predicate LinesAreLines(block: seq<string>) {
    forall i | 0 <= i < |block| :: OneLine(block[i])
  }

  lemma {:induction false} EscapedIsOneLine(s: string)
    requires OneLine(s)
    ensures OneLine(Escaped(s))
  {
    if |s| >= 2 {
      if s[0] == '*' && s[1] == '/' {
        EscapedIsOneLine(s[2..]);
      } else {
        EscapedIsOneLine(s[1..]);
      }
    }
  }

  lemma StarredLine(x: string, rest: string)
    requires OneLine(x)
    ensures LinesOf(" * " + x + "\n" + rest) == [" * " + x] + LinesOf(rest)
    ensures (" * " + x)[..3] == " * " && (" * " + x)[3..] == x && (" * " + x) != " */" && (" * " + x) != " *"
  {
    LineThenRest(" * " + x, rest);
    assert (" * " + x)[2] == ' ';
  }

  lemma EscapedLinesFront(block: seq<string>)
    requires block != []
    ensures EscapedLines(block) == [Escaped(block[0])] + EscapedLines(block[1..])
  {
  }

  lemma BlockTextFront(block: seq<string>, tail: string)
    requires block != []
    ensures BlockText(block) + tail == " * " + Escaped(block[0]) + "\n" + (BlockText(block[1..]) + tail)
  {
    Regroup(" * " + Escaped(block[0]) + "\n", BlockText(block[1..]), tail);
  }

  // A block in front of what reads as `more`.
  lemma {:induction false} BlockIsRead(block: seq<string>, tail: string, more: seq<seq<string>>)
    requires LinesAreLines(block) && more != [] && ReadBody(LinesOf(tail)) == Some(more)
    ensures ReadBody(LinesOf(BlockText(block) + tail)) == Some([EscapedLines(block) + more[0]] + more[1..])
  {
    if block == [] {
      assert BlockText(block) + tail == tail;
      assert EscapedLines(block) + more[0] == more[0];
      assert [more[0]] + more[1..] == more;
    } else {
      var x, rest := Escaped(block[0]), BlockText(block[1..]) + tail;
      BlockIsRead(block[1..], tail, more);
      EscapedIsOneLine(block[0]);
      BlockTextFront(block, tail);
      StarredLine(x, rest);
      OneLineMore(x, LinesOf(rest), EscapedLines(block[1..]) + more[0], more[1..]);
      EscapedLinesFront(block);
      Regroup([x], EscapedLines(block[1..]), more[0]);
    }
  }

  lemma OneLineMore(x: string, lines: seq<string>, first: seq<string>, more: seq<seq<string>>)
    requires ReadBody(lines) == Some([first] + more)
    ensures ReadBody([" * " + x] + lines) == Some([[x] + first] + more)
  {
    assert (" * " + x)[..3] == " * " && (" * " + x)[3..] == x && (" * " + x)[2] == ' ';
    assert ([" * " + x] + lines)[1..] == lines;
    assert ([first] + more)[1..] == more;
  }

  lemma BarIsRead(tail: string, more: seq<seq<string>>)
    requires ReadBody(LinesOf(tail)) == Some(more)
    ensures ReadBody(LinesOf(" *\n" + tail)) == Some([[]] + more)
  {
    LineThenRest(" *", tail);
    assert " *" + "\n" + tail == " *\n" + tail;
    assert ([" *"] + LinesOf(tail))[1..] == LinesOf(tail);
  }

  lemma EndIsRead()
    ensures ReadBody(LinesOf(" */\n")) == Some([[]])
  {
    LineThenRest(" */", "");
    assert " */" + "\n" + "" == " */\n";
  }

  lemma {:induction false} BodyIsRead(blocks: seq<seq<string>>)
    requires blocks != [] && forall i | 0 <= i < |blocks| :: LinesAreLines(blocks[i])
    ensures ReadBody(LinesOf(Body(blocks) + " */\n")) == Some(EscapedBlocks(blocks))
  {
    if |blocks| == 1 {
      LastBlockIsRead(blocks[0]);
      assert blocks == [blocks[0]];
    } else {
      BodyIsRead(blocks[1..]);
      FirstBlockIsRead(blocks);
    }
  }

  lemma LastBlockIsRead(block: seq<string>)
    requires LinesAreLines(block)
    ensures ReadBody(LinesOf(Body([block]) + " */\n")) == Some(EscapedBlocks([block]))
  {
    EndIsRead();
    var end: seq<seq<string>> := [[]];
    BlockIsRead(block, " */\n", end);
    assert end[0] == [] && end[1..] == [];
    assert [block][1..] == [] && Body([]) == "";
    assert BlockText(block) + "" + "" == BlockText(block);
    assert EscapedLines(block) + [] == EscapedLines(block);
    assert EscapedBlocks([block]) == [EscapedLines(block)] + [];
  }

  lemma BodyFront(blocks: seq<seq<string>>, end: string)
    requires |blocks| > 1
    ensures Body(blocks) + end == BlockText(blocks[0]) + (" *\n" + (Body(blocks[1..]) + end))
  {
    Regroup4(BlockText(blocks[0]), " *\n", Body(blocks[1..]), end);
    Regroup(" *\n", Body(blocks[1..]), end);
  }

  lemma EscapedBlocksFront(blocks: seq<seq<string>>)
    requires blocks != []
    ensures EscapedBlocks(blocks) == [EscapedLines(blocks[0])] + EscapedBlocks(blocks[1..])
  {
  }

  lemma FirstBlockIsRead(blocks: seq<seq<string>>)
    requires |blocks| > 1 && LinesAreLines(blocks[0])
    requires ReadBody(LinesOf(Body(blocks[1..]) + " */\n")) == Some(EscapedBlocks(blocks[1..]))
    ensures ReadBody(LinesOf(Body(blocks) + " */\n")) == Some(EscapedBlocks(blocks))
  {
    var rest, more := Body(blocks[1..]) + " */\n", EscapedBlocks(blocks[1..]);
    BarIsRead(rest, more);
    BarInFront(blocks[0], " *\n" + rest, more);
    BodyFront(blocks, " */\n");
    EscapedBlocksFront(blocks);
  }

  lemma BarInFront(block: seq<string>, tail: string, more: seq<seq<string>>)
    requires LinesAreLines(block) && ReadBody(LinesOf(tail)) == Some([[]] + more)
    ensures ReadBody(LinesOf(BlockText(block) + tail)) == Some([EscapedLines(block)] + more)
  {
    var parted: seq<seq<string>> := [[]] + more;
    BlockIsRead(block, tail, parted);
    assert EscapedLines(block) + [] == EscapedLines(block);
    assert parted[0] == [] && parted[1..] == more;
  }

  // A reader of the comment finds the blocks it was made of, every line in its place and
  // each as it was, but that a close in it is escaped.
  lemma CommentReadsBack(blocks: seq<seq<string>>)
    requires blocks != [] && forall i | 0 <= i < |blocks| :: LinesAreLines(blocks[i])
    ensures ReadComment(Rendered(blocks)) == Some(EscapedBlocks(blocks))
  {
    if |blocks| == 1 && |blocks[0]| == 1 {
      SingleLineIsRead(blocks[0][0]);
      assert EscapedLines(blocks[0]) == [Escaped(blocks[0][0])];
      assert EscapedBlocks(blocks) == [EscapedLines(blocks[0])];
    } else {
      BodyIsRead(blocks);
      LineThenRest("/**", Body(blocks) + " */\n");
      assert Rendered(blocks) == "/**" + "\n" + (Body(blocks) + " */\n");
    }
  }

  lemma SingleLineIsRead(line: string)
    requires OneLine(line)
    ensures ReadComment("/** " + Escaped(line) + " */\n") == Some([[Escaped(line)]])
  {
    var x := Escaped(line);
    var first := "/** " + x + " */";
    EscapedIsOneLine(line);
    LineThenRest(first, "");
    assert first + "\n" + "" == "/** " + x + " */\n";
    assert first[..4] == "/** " && first[|first| - 3..] == " */" && first[4..|first| - 3] == x;
  }

  // Every `*\/` back to a close.
  function Unescaped(s: string): string {
    if |s| < 3 then s
    else if s[..3] == "*\\/" then "*/" + Unescaped(s[3..])
    else [s[0]] + Unescaped(s[1..])
  }

  predicate HoldsEscape(s: string) {
    exists i :: 0 <= i < |s| && EscapeAt(s, i)
  }

  predicate EscapeAt(s: string, i: nat) {
    i + 2 < |s| && s[i] == '*' && s[i + 1] == '\\' && s[i + 2] == '/'
  }

  lemma HoldsLater(s: string, k: nat)
    requires k <= |s| && HoldsEscape(s[k..])
    ensures HoldsEscape(s)
  {
    var i :| 0 <= i < |s[k..]| && EscapeAt(s[k..], i);
    assert EscapeAt(s, k + i);
  }

  lemma EscapedFront(s: string)
    requires s != "" && s[0] != '*'
    ensures |Escaped(s)| >= 1 && Escaped(s)[0] == s[0]
    ensures |s| >= 2 ==> |Escaped(s)| >= 2 && Escaped(s)[1] == s[1]
    ensures |s| < 2 ==> |Escaped(s)| < 2
  {
    if |s| >= 2 {
      EscapedHasNoClose(s[1..]);
    }
  }

  // Taking the escapes out again gives the line, unless it held one of its own.
  lemma {:induction false} EscapesComeOut(s: string)
    requires !HoldsEscape(s)
    ensures Unescaped(Escaped(s)) == s
  {
    if |s| >= 2 {
      if s[0] == '*' && s[1] == '/' {
        if HoldsEscape(s[2..]) { HoldsLater(s, 2); }
        EscapesComeOut(s[2..]);
        assert Escaped(s)[..3] == "*\\/" && Escaped(s)[3..] == Escaped(s[2..]);
        assert "*/" + s[2..] == s;
      } else {
        if HoldsEscape(s[1..]) { HoldsLater(s, 1); }
        EscapesComeOut(s[1..]);
        NoEscapeInFront(s);
        assert Escaped(s)[1..] == Escaped(s[1..]);
        assert [s[0]] + s[1..] == s;
      }
    }
  }

  lemma NoEscapeInFront(s: string)
    requires |s| >= 2 && !HoldsEscape(s) && !(s[0] == '*' && s[1] == '/')
    ensures |Escaped(s)| >= 3 ==> Escaped(s)[..3] != "*\\/"
    ensures |Escaped(s)| < 3 ==> |Escaped(s[1..])| < 2
  {
    var e := Escaped(s);
    assert e == [s[0]] + Escaped(s[1..]);
    if |e| >= 3 && e[..3] == "*\\/" {
      assert e[0] == '*' && e[1] == '\\' && e[2] == '/' by {
        assert e[0] == e[..3][0] && e[1] == e[..3][1] && e[2] == e[..3][2];
      }
      EscapedHasNoClose(s[1..]);
      EscapedFront(s[1..]);
      assert EscapeAt(s, 0);
    }
  }
}
