/** The environment file that set-password rewrites, and the whole way of a password through it. */
module EnvFile {
  import opened Options
  import opened Text
  import opened Base64
  import opened Auth
  import Decimals

  const HASH_KEY := "FAULTHUB_ADMIN_PASSWORD_HASH"
  const PASSWORD_KEY := "FAULTHUB_ADMIN_PASSWORD"

  function ComposeEscape(v: string): string {
    ReplaceAll(v, '$', "$$")
  }

  /** How the reader of the file undoes it. */
  function ComposeUnescape(v: string): string {
    if |v| >= 2 && v[0] == '$' && v[1] == '$' then "$" + ComposeUnescape(v[2..])
    else if v == "" then ""
    else [v[0]] + ComposeUnescape(v[1..])
  }

  function EnvKey(ln: string): string {
    var trimmed := TrimSpace(ln);
    if trimmed == "" || trimmed[0] == '#' then "" else
      var i := IndexOf(trimmed, '=');
      if i == |trimmed| then "" else TrimSpace(trimmed[..i])
  }

  function EnvValue(ln: string): string {
    var trimmed := TrimSpace(ln);
    var i := IndexOf(trimmed, '=');
    if i == |trimmed| then "" else trimmed[i + 1..]
  }

  function HashLine(escaped: string): string {
    HASH_KEY + "=" + escaped
  }

  // ---------- the rewriter ----------

  /** The lines kept from lines on, given whether the hash line is already out. */
  function Kept(lines: seq<string>, hashLine: string, replaced: bool): seq<string> {
    if lines == [] then []
    else if EnvKey(lines[0]) == PASSWORD_KEY then Kept(lines[1..], hashLine, replaced)
    else if EnvKey(lines[0]) == HASH_KEY then
      if replaced then Kept(lines[1..], hashLine, true) else [hashLine] + Kept(lines[1..], hashLine, true)
    else [lines[0]] + Kept(lines[1..], hashLine, replaced)
  }

  predicate HasHash(lines: seq<string>) {
    exists i :: 0 <= i < |lines| && EnvKey(lines[i]) == HASH_KEY
  }

  /** Without the empty lines at the end. */
  function DropEmptyEnd(lines: seq<string>): seq<string> {
    if lines != [] && lines[|lines| - 1] == "" then DropEmptyEnd(lines[..|lines| - 1]) else lines
  }

  function NewLines(lines: seq<string>, hashLine: string): seq<string> {
    var out := Kept(lines, hashLine, false);
    DropEmptyEnd(if HasHash(lines) then out else DropEmptyEnd(out) + [hashLine])
  }

  predicate EndsInNewline(s: string) {
    s != "" && s[|s| - 1] == '\n'
  }

  function Rewritten(content: string, escaped: string): string {
    Join(NewLines(Split(content, '\n'), HashLine(escaped)), '\n') + if EndsInNewline(content) then "\n" else ""
  }

  method TrimEnd(lines: seq<string>) returns (out: seq<string>)
    ensures out == DropEmptyEnd(lines)
  {
    out := lines;
    while |out| > 0 && out[|out| - 1] == ""
      invariant DropEmptyEnd(out) == DropEmptyEnd(lines)
    {
      out := out[..|out| - 1];
    }
  }

  /** What the lines from i on still contribute. */
  function KeptFrom(lines: seq<string>, i: nat, hashLine: string, replaced: bool): seq<string>
    requires i <= |lines|
  {
    Kept(lines[i..], hashLine, replaced)
  }

  /** A hash line has been seen among the first i lines. */
  predicate HashSeen(lines: seq<string>, i: nat)
    requires i <= |lines|
  {
    HasHash(lines[..i])
  }

  lemma KeptEnds(lines: seq<string>, hashLine: string, replaced: bool)
    ensures KeptFrom(lines, 0, hashLine, replaced) == Kept(lines, hashLine, replaced)
    ensures KeptFrom(lines, |lines|, hashLine, replaced) == []
    ensures !HashSeen(lines, 0) && (HashSeen(lines, |lines|) <==> HasHash(lines))
  {
    hide EnvKey;
    assert lines[0..] == lines && lines[..|lines|] == lines && lines[|lines|..] == [];
  }

  /** The loop over the lines. */
  method KeepLines(lines: seq<string>, hashLine: string) returns (out: seq<string>, replaced: bool)
    ensures out == Kept(lines, hashLine, false) && replaced == HasHash(lines)
  {
    hide EnvKey, KeptFrom, HashSeen, Kept, HasHash;
    out, replaced := [], false;
    KeysDiffer();
    KeptEnds(lines, hashLine, false);
    for i := 0 to |lines|
      invariant out + KeptFrom(lines, i, hashLine, replaced) == Kept(lines, hashLine, false)
      invariant replaced == HashSeen(lines, i)
    {
      KeptStep(lines, i, hashLine, replaced);
      HasHashSnoc(lines, i);
      var ln := lines[i];
      var key := EnvKey(ln);
      if key == PASSWORD_KEY {
        continue;
      }
      if key == HASH_KEY {
        if !replaced {
          Regroup(out, [hashLine], KeptFrom(lines, i + 1, hashLine, true));
          out := out + [hashLine];
          replaced := true;
        }
        continue;
      }
      Regroup(out, [ln], KeptFrom(lines, i + 1, hashLine, replaced));
      out := out + [ln];
    }
    KeptEnds(lines, hashLine, replaced);
    assert out + [] == out;
  }

  method RewriteEnv(content: string, escaped: string) returns (res: string)
    ensures res == Rewritten(content, escaped)
  {
    hide EnvKey, Split, Join, DropEmptyEnd, Kept, HasHash;
    var hashLine := HASH_KEY + "=" + escaped;
    var out, replaced := KeepLines(Split(content, '\n'), hashLine);
    if !replaced {
      out := TrimEnd(out);
      out := out + [hashLine];
    }
    out := TrimEnd(out);
    res := Join(out, '\n');
    if |content| > 0 && content[|content| - 1] == '\n' {
      res := res + "\n";
    } else {
      assert res + "" == res;
    }
  }

  lemma KeysDiffer()
    ensures HASH_KEY != PASSWORD_KEY && HASH_KEY != "" && PASSWORD_KEY != ""
  {
    assert |HASH_KEY| != |PASSWORD_KEY|;
  }

  lemma KeptStep(lines: seq<string>, i: nat, hashLine: string, replaced: bool)
    requires i < |lines|
    ensures KeptFrom(lines, i, hashLine, replaced) ==
            if EnvKey(lines[i]) == PASSWORD_KEY then KeptFrom(lines, i + 1, hashLine, replaced)
            else if EnvKey(lines[i]) == HASH_KEY then
              if replaced then KeptFrom(lines, i + 1, hashLine, true) else [hashLine] + KeptFrom(lines, i + 1, hashLine, true)
            else [lines[i]] + KeptFrom(lines, i + 1, hashLine, replaced)
  {
    hide EnvKey;
    assert lines[i..][1..] == lines[i + 1..];
  }

  lemma HasHashSnoc(lines: seq<string>, i: nat)
    requires i < |lines|
    ensures HashSeen(lines, i + 1) <==> HashSeen(lines, i) || EnvKey(lines[i]) == HASH_KEY
  {
    hide EnvKey;
    var a, b := lines[..i], lines[..i + 1];
    assert forall k :: 0 <= k < i ==> a[k] == b[k];
    assert b[i] == lines[i];
  }

  // ---------- what a line's key is ----------

  predicate AssignedBy(ln: string, a: string, key: string, b: string, v: string) {
    Blank(a) && Blank(b) && ln == a + key + b + "=" + v
  }

  /** The line gives key some value: white space may stand before the key and before the equals
      sign. */
  ghost predicate Assigns(ln: string, key: string) {
    exists a, b, v :: AssignedBy(ln, a, key, b, v)
  }

  predicate KeyShape(key: string) {
    key != "" && Trimmed(key) && '=' !in key && key[0] != '#'
  }

  lemma IndexIs(s: string, c: char, i: nat)
    requires i < |s| && s[i] == c && c !in s[..i]
    ensures IndexOf(s, c) == i
  {
    var k := IndexOf(s, c);
    assert forall j :: 0 <= j < i ==> s[j] == s[..i][j];
    assert forall j :: 0 <= j < k ==> s[j] == s[..k][j];
  }

  lemma EqualsIsSolid()
    ensures !IsSpace('=')
  {}

  /** White space around the key and anything after the equals sign do not change the key. */
  lemma KeyOfLine(ln: string, a: string, key: string, b: string, v: string)
    requires KeyShape(key) && AssignedBy(ln, a, key, b, v)
    ensures EnvKey(ln) == key
  {
    hide IsSpace, TrimSpace, IndexOf;
    EqualsIsSolid();
    var head := key + b + "=";
    var p, q := TrimSplits(v);
    TrimIsBlank(v);
    var t := if Blank(v) then head else head + (p + TrimSpace(v));
    assert ln == a + t + if Blank(v) then v else q;
    assert Trimmed(t);
    TrimOf(a, t, if Blank(v) then v else q);
    assert t[..|key + b|] == key + b && t[0] == key[0];
    IndexIs(t, '=', |key + b|);
    TrimOf("", key, b);
    assert "" + key + b == key + b;
  }

  lemma KeyIsAssigned(ln: string)
    requires EnvKey(ln) != ""
    ensures KeyShape(EnvKey(ln)) && Assigns(ln, EnvKey(ln))
  {
    hide IsSpace, TrimSpace, AssignedBy, Blank;
    var t := TrimSpace(ln);
    var a, b := TrimSplits(ln);
    var i := IndexOf(t, '=');
    hide IndexOf;
    var head, v := t[..i], t[i + 1..];
    assert t == head + "=" + v;
    var p, q := TrimSplits(head);
    var key := TrimSpace(head);
    KeyFirst(t, p, key, q, v);
    BlankJoin(a, p);
    assert ln == (a + p) + key + q + "=" + (v + b);
    AssignedIs(ln, a + p, key, q, v + b);
  }

  lemma AssignedIs(ln: string, a: string, key: string, b: string, v: string)
    requires Blank(a) && Blank(b) && ln == a + key + b + "=" + v
    ensures AssignedBy(ln, a, key, b, v)
  {}

  lemma BlankJoin(a: string, b: string)
    requires Blank(a) && Blank(b)
    ensures Blank(a + b)
  {
    hide IsSpace;
  }

  lemma KeyFirst(t: string, p: string, key: string, q: string, v: string)
    requires Trimmed(t) && Blank(p) && key != "" && t == p + key + q + "=" + v
    ensures p == "" && key[0] == t[0]
  {
    hide IsSpace;
    assert t == p + (key + q + "=" + v);
  }

  /** A line's key, on text: it is a given key exactly when the line assigns that key, and empty,
      as for comments and lines without an equals sign, exactly when it assigns none. */
  lemma EnvKeyMeans(ln: string, key: string)
    ensures key != "" ==> (EnvKey(ln) == key <==> KeyShape(key) && Assigns(ln, key))
    ensures EnvKey(ln) == "" <==> forall k :: KeyShape(k) ==> !Assigns(ln, k)
  {
    hide EnvKey, KeyShape, AssignedBy;
    if EnvKey(ln) != "" {
      KeyIsAssigned(ln);
    }
    forall k | KeyShape(k) && Assigns(ln, k)
      ensures EnvKey(ln) == k && k != ""
    {
      var a, b, v :| AssignedBy(ln, a, k, b, v);
      KeyOfLine(ln, a, k, b, v);
      KeyNotEmpty(k);
    }
  }

  lemma KeyNotEmpty(key: string)
    requires KeyShape(key)
    ensures key != ""
  {}

  lemma CommentHasNoKey(a: string, x: string)
    requires Blank(a)
    ensures EnvKey(a + "#" + x) == ""
  {
    hide IsSpace, TrimSpace, IndexOf;
    assert !IsSpace('#') by {
      AsciiSpace('#');
    }
    var ln := a + "#" + x;
    var p, q := TrimSplits(x);
    TrimIsBlank(x);
    var t := if Blank(x) then "#" else "#" + (p + TrimSpace(x));
    assert ln == a + t + if Blank(x) then x else q;
    TrimOf(a, t, if Blank(x) then x else q);
  }

  // ---------- the hash line's key and value ----------

  lemma KeyLetters()
    ensures KeyShape(HASH_KEY) && KeyShape(PASSWORD_KEY)
  {}

  lemma HashLineKey(escaped: string)
    ensures EnvKey(HashLine(escaped)) == HASH_KEY
  {
    hide IsSpace, EnvKey, KeyShape;
    KeyLetters();
    assert HashLine(escaped) == "" + HASH_KEY + "" + "=" + escaped;
    KeyOfLine(HashLine(escaped), "", HASH_KEY, "", escaped);
  }

  lemma HashLineValue(escaped: string)
    requires escaped != "" && !IsSpace(escaped[|escaped| - 1])
    ensures EnvValue(HashLine(escaped)) == escaped
  {
    hide IsSpace, TrimSpace, IndexOf;
    var ln := HashLine(escaped);
    var n := |HASH_KEY|;
    KeyLetters();
    assert ln[0] == HASH_KEY[0] && ln[|ln| - 1] == escaped[|escaped| - 1];
    TrimOf("", ln, "");
    assert "" + ln + "" == ln;
    assert ln[n] == '=' && ln[..n] == HASH_KEY;
    IndexIs(ln, '=', n);
    assert ln[n + 1..] == escaped;
  }

  lemma EmptyLineHasNoKey()
    ensures EnvKey("") == ""
  {}

  // ---------- what the new lines are ----------

  /** A line that is neither empty nor for one of the two keys. */
  predicate Other(ln: string) {
    ln != "" && EnvKey(ln) != HASH_KEY && EnvKey(ln) != PASSWORD_KEY
  }

  function Others(lines: seq<string>): seq<string> {
    if lines == [] then [] else (if Other(lines[0]) then [lines[0]] else []) + Others(lines[1..])
  }

  function HashLines(lines: seq<string>): seq<string> {
    if lines == [] then []
    else (if EnvKey(lines[0]) == HASH_KEY then [lines[0]] else []) + HashLines(lines[1..])
  }

  predicate NoPassword(lines: seq<string>) {
    forall i :: 0 <= i < |lines| ==> EnvKey(lines[i]) != PASSWORD_KEY
  }

  lemma {:induction false} OthersAppend(a: seq<string>, b: seq<string>)
    ensures Others(a + b) == Others(a) + Others(b)
    ensures HashLines(a + b) == HashLines(a) + HashLines(b)
  {
    if a == [] {
      assert a + b == b;
      NothingElse();
    } else {
      hide Other, EnvKey, Others, HashLines;
      OthersAppend(a[1..], b);
      AppendCons(a, b);
      OthersCons(a[0], a[1..] + b);
      OthersCons(a[0], a[1..]);
      Regroup(if Other(a[0]) then [a[0]] else [], Others(a[1..]), Others(b));
      Regroup(if EnvKey(a[0]) == HASH_KEY then [a[0]] else [], HashLines(a[1..]), HashLines(b));
    }
  }

  lemma NothingElse()
    ensures Others([]) == [] && HashLines([]) == []
  {}

  lemma OthersCons(ln: string, rest: seq<string>)
    ensures Others([ln] + rest) == (if Other(ln) then [ln] else []) + Others(rest)
    ensures HashLines([ln] + rest) == (if EnvKey(ln) == HASH_KEY then [ln] else []) + HashLines(rest)
  {
    hide Other, EnvKey;
    assert ([ln] + rest)[1..] == rest;
  }

  lemma SingleLine(ln: string)
    ensures Others([ln]) == if Other(ln) then [ln] else []
    ensures HashLines([ln]) == if EnvKey(ln) == HASH_KEY then [ln] else []
  {
    hide Other, EnvKey;
    assert [ln][1..] == [];
  }

  lemma EmptyLineAtEnd(lines: seq<string>)
    ensures Others(lines + [""]) == Others(lines) && HashLines(lines + [""]) == HashLines(lines)
  {
    hide EnvKey, Others, HashLines;
    OthersAppend(lines, [""]);
    SingleLine("");
    EmptyLineHasNoKey();
    KeysDiffer();
    assert Others(lines) + [] == Others(lines) && HashLines(lines) + [] == HashLines(lines);
  }

  lemma {:induction false} DropEmptyEndKeeps(lines: seq<string>)
    ensures Others(DropEmptyEnd(lines)) == Others(lines)
    ensures HashLines(DropEmptyEnd(lines)) == HashLines(lines)
    ensures DropEmptyEnd(lines) <= lines
    ensures forall i :: |DropEmptyEnd(lines)| <= i < |lines| ==> lines[i] == ""
    ensures DropEmptyEnd(lines) != [] ==> DropEmptyEnd(lines)[|DropEmptyEnd(lines)| - 1] != ""
  {
    hide EnvKey, Others, HashLines;
    if lines != [] && lines[|lines| - 1] == "" {
      var front := lines[..|lines| - 1];
      DropEmptyEndKeeps(front);
      assert lines == front + [""];
      EmptyLineAtEnd(front);
    }
  }

  /** The kept lines: the others in order, the hash line once if there was one and it was not out
      yet, no password line. */
  lemma {:induction false} KeptLines(lines: seq<string>, escaped: string, replaced: bool)
    ensures var out := Kept(lines, HashLine(escaped), replaced);
            Others(out) == Others(lines) && NoPassword(out) &&
            HashLines(out) == if HasHash(lines) && !replaced then [HashLine(escaped)] else []
  {
    if lines != [] {
      hide EnvKey, Others, HashLines, HasHash, HashLine, Kept, NoPassword;
      var ln, rest := lines[0], lines[1..];
      assert lines == [ln] + rest;
      OthersAppend([ln], rest);
      SingleLine(ln);
      HasHashCons(ln, rest);
      HashLineKey(escaped);
      KeysDiffer();
      KeptCons(ln, rest, HashLine(escaped), replaced);
      var replaced' := replaced || EnvKey(ln) == HASH_KEY;
      KeptLines(rest, escaped, replaced');
      var tail := Kept(rest, HashLine(escaped), replaced');
      if EnvKey(ln) == HASH_KEY && !replaced {
        OthersAppend([HashLine(escaped)], tail);
        SingleLine(HashLine(escaped));
        NoPasswordCons(HashLine(escaped), tail);
      } else if EnvKey(ln) != HASH_KEY && EnvKey(ln) != PASSWORD_KEY {
        OthersAppend([ln], tail);
        NoPasswordCons(ln, tail);
      }
    }
  }

  lemma HasHashCons(ln: string, rest: seq<string>)
    ensures HasHash([ln] + rest) <==> EnvKey(ln) == HASH_KEY || HasHash(rest)
  {
    hide EnvKey;
    var all := [ln] + rest;
    assert all[0] == ln;
    assert forall i :: 0 <= i < |rest| ==> all[i + 1] == rest[i];
    if HasHash(rest) {
      var i :| 0 <= i < |rest| && EnvKey(rest[i]) == HASH_KEY;
      assert EnvKey(all[i + 1]) == HASH_KEY;
    }
    if HasHash(all) {
      var i :| 0 <= i < |all| && EnvKey(all[i]) == HASH_KEY;
      assert i > 0 ==> EnvKey(rest[i - 1]) == HASH_KEY;
    }
  }

  lemma NoPasswordCons(ln: string, rest: seq<string>)
    requires EnvKey(ln) != PASSWORD_KEY && NoPassword(rest)
    ensures NoPassword([ln] + rest)
  {
    hide EnvKey;
  }

  lemma KeptCons(ln: string, rest: seq<string>, hashLine: string, replaced: bool)
    ensures Kept([ln] + rest, hashLine, replaced) ==
            if EnvKey(ln) == PASSWORD_KEY then Kept(rest, hashLine, replaced)
            else if EnvKey(ln) == HASH_KEY then
              if replaced then Kept(rest, hashLine, true) else [hashLine] + Kept(rest, hashLine, true)
            else [ln] + Kept(rest, hashLine, replaced)
  {
    hide EnvKey;
    assert ([ln] + rest)[1..] == rest;
  }

  /** The new lines hold the hash line once, no password line, and every other non-empty line of
      the old ones in order; they do not end in an empty line. */
  lemma NewLinesLaws(lines: seq<string>, escaped: string)
    ensures var out := NewLines(lines, HashLine(escaped));
            HashLines(out) == [HashLine(escaped)] && NoPassword(out) && Others(out) == Others(lines) &&
            out != [] && out[|out| - 1] != ""
  {
    hide EnvKey, Others, HashLines, HasHash, HashLine, Kept, DropEmptyEnd;
    var hashLine := HashLine(escaped);
    var kept := Kept(lines, hashLine, false);
    KeptLines(lines, escaped, false);
    DropEmptyEndKeeps(kept);
    HashLineKey(escaped);
    KeysDiffer();
    var front := DropEmptyEnd(kept);
    OthersAppend(front, [hashLine]);
    SingleLine(hashLine);
    DropEmptyEndKeeps(front + [hashLine]);
    NothingElse();
  }

  // ---------- the file ----------

  lemma {:induction false} KeptIsFree(lines: seq<string>, hashLine: string, replaced: bool)
    requires AllFree(lines, '\n') && Free(hashLine, '\n')
    ensures AllFree(Kept(lines, hashLine, replaced), '\n')
  {
    if lines != [] {
      hide EnvKey;
      assert Free(lines[0], '\n');
      assert AllFree(lines[1..], '\n');
      KeptIsFree(lines[1..], hashLine, replaced);
      KeptIsFree(lines[1..], hashLine, true);
    }
  }

  lemma NewLinesAreFree(lines: seq<string>, hashLine: string)
    requires AllFree(lines, '\n') && Free(hashLine, '\n')
    ensures AllFree(NewLines(lines, hashLine), '\n')
  {
    hide Kept, DropEmptyEnd, HasHash, Others, HashLines;
    KeptIsFree(lines, hashLine, false);
    var kept := Kept(lines, hashLine, false);
    DropEmptyEndKeeps(kept);
    var more := DropEmptyEnd(kept) + [hashLine];
    assert AllFree(DropEmptyEnd(kept), '\n');
    assert AllFree(more, '\n');
    DropEmptyEndKeeps(more);
  }

  lemma HashLineIsFree(escaped: string)
    requires Free(escaped, '\n')
    ensures Free(HashLine(escaped), '\n')
  {
    assert forall i :: 0 <= i < |HASH_KEY| ==> HASH_KEY[i] != '\n';
  }

  /** The lines of the rewritten file: the new lines, with one empty line after them exactly when
      the old file ended in a newline. */
  lemma RewrittenLines(content: string, escaped: string)
    requires Free(escaped, '\n')
    ensures Split(Rewritten(content, escaped), '\n') ==
            NewLines(Split(content, '\n'), HashLine(escaped)) + if EndsInNewline(content) then [""] else []
    ensures EndsInNewline(Rewritten(content, escaped)) <==> EndsInNewline(content)
  {
    hide Split, Join, NewLines, HashLine, Others, HashLines;
    var out := NewLines(Split(content, '\n'), HashLine(escaped));
    SplitIsFree(content, '\n');
    HashLineIsFree(escaped);
    NewLinesAreFree(Split(content, '\n'), HashLine(escaped));
    NewLinesLaws(Split(content, '\n'), escaped);
    if EndsInNewline(content) {
      JoinSnoc(out, "", '\n');
      assert Join(out, '\n') + ['\n'] + "" == Rewritten(content, escaped);
      assert AllFree(out + [""], '\n');
      SplitOfJoin(out + [""], '\n');
    } else {
      assert Rewritten(content, escaped) == Join(out, '\n');
      SplitOfJoin(out, '\n');
      JoinEndsLikeLast(out);
      assert Free(out[|out| - 1], '\n');
      assert out + [] == out;
    }
  }

  lemma {:induction false} JoinEndsLikeLast(parts: seq<string>)
    requires parts != [] && parts[|parts| - 1] != ""
    ensures Join(parts, '\n') != ""
    ensures var s, last := Join(parts, '\n'), parts[|parts| - 1]; s[|s| - 1] == last[|last| - 1]
  {
    if |parts| > 1 {
      JoinEndsLikeLast(parts[1..]);
    }
  }

  /** One hash line and no plaintext password line are left; all other non-empty lines survive in
      their order; the final newline is as before. */
  lemma RewriteLaws(content: string, escaped: string)
    requires Free(escaped, '\n')
    ensures var old', new' := Split(content, '\n'), Split(Rewritten(content, escaped), '\n');
            HashLines(new') == [HashLine(escaped)] && NoPassword(new') && Others(new') == Others(old')
    ensures EndsInNewline(Rewritten(content, escaped)) <==> EndsInNewline(content)
  {
    hide Split, NewLines, HashLine, Others, HashLines, EnvKey, Rewritten, NoPassword;
    var lines := Split(content, '\n');
    var out := NewLines(lines, HashLine(escaped));
    RewrittenLines(content, escaped);
    NewLinesLaws(lines, escaped);
    EmptyLineAtEnd(out);
    NoPasswordEmpty(out);
    assert out + [] == out;
  }

  // ---------- the same on text ----------

  lemma {:induction false} OneHashLine(lines: seq<string>, hashLine: string) returns (i: nat)
    requires HashLines(lines) == [hashLine]
    ensures i < |lines| && lines[i] == hashLine
    ensures forall j :: 0 <= j < |lines| ==> (EnvKey(lines[j]) == HASH_KEY <==> j == i)
  {
    hide EnvKey;
    if EnvKey(lines[0]) == HASH_KEY {
      i := 0;
      assert HashLines(lines)[0] == lines[0] && HashLines(lines)[1..] == HashLines(lines[1..]);
      NoHashLines(lines[1..]);
      assert forall j :: 0 < j < |lines| ==> lines[j] == lines[1..][j - 1];
    } else {
      assert HashLines(lines) == HashLines(lines[1..]);
      var k := OneHashLine(lines[1..], hashLine);
      i := k + 1;
      assert forall j :: 0 < j < |lines| ==> lines[j] == lines[1..][j - 1];
    }
  }

  lemma {:induction false} NoHashLines(lines: seq<string>)
    requires HashLines(lines) == []
    ensures forall i :: 0 <= i < |lines| ==> EnvKey(lines[i]) != HASH_KEY
  {
    hide EnvKey;
    if lines != [] {
      NoHashLines(lines[1..]);
      assert forall j :: 0 < j < |lines| ==> lines[j] == lines[1..][j - 1];
    }
  }

  /** Afterwards no line gives the plaintext password, however it is spaced, and exactly one line
      gives the hash: the new one. */
  lemma NoPlaintextIsLeft(content: string, escaped: string) returns (i: nat)
    requires Free(escaped, '\n')
    ensures var lines := Split(Rewritten(content, escaped), '\n');
            (forall j :: 0 <= j < |lines| ==> !Assigns(lines[j], "FAULTHUB_ADMIN_PASSWORD")) &&
            i < |lines| && lines[i] == "FAULTHUB_ADMIN_PASSWORD_HASH=" + escaped &&
            (forall j :: 0 <= j < |lines| ==> (Assigns(lines[j], "FAULTHUB_ADMIN_PASSWORD_HASH") <==> j == i))
  {
    hide Split, Rewritten, HashLines, Others, EnvKey, Assigns, KeyShape;
    var lines := Split(Rewritten(content, escaped), '\n');
    RewriteLaws(content, escaped);
    i := OneHashLine(lines, HashLine(escaped));
    KeysDiffer();
    KeyLetters();
    forall j | 0 <= j < |lines|
      ensures !Assigns(lines[j], PASSWORD_KEY) && (Assigns(lines[j], HASH_KEY) <==> j == i)
    {
      EnvKeyMeans(lines[j], PASSWORD_KEY);
      EnvKeyMeans(lines[j], HASH_KEY);
    }
    assert HASH_KEY + "=" + escaped == "FAULTHUB_ADMIN_PASSWORD_HASH=" + escaped;
  }

  /** The line a reader would write for the plaintext password is not in the file. */
  lemma NoPlaintextLine(content: string, escaped: string, a: string, b: string, v: string)
    requires Free(escaped, '\n') && Blank(a) && Blank(b)
    ensures a + "FAULTHUB_ADMIN_PASSWORD" + b + "=" + v !in Split(Rewritten(content, escaped), '\n')
  {
    hide Split, Rewritten, Blank;
    var i := NoPlaintextIsLeft(content, escaped);
    AssignedIs(a + "FAULTHUB_ADMIN_PASSWORD" + b + "=" + v, a, "FAULTHUB_ADMIN_PASSWORD", b, v);
  }

  // ---------- where the hash line goes ----------

  /** The lines for neither of the two keys, empty ones included. */
  function Rest(lines: seq<string>): seq<string> {
    if lines == [] then []
    else (if EnvKey(lines[0]) == HASH_KEY || EnvKey(lines[0]) == PASSWORD_KEY then [] else [lines[0]]) + Rest(lines[1..])
  }

  lemma {:induction false} KeptAfterHash(lines: seq<string>, hashLine: string)
    ensures Kept(lines, hashLine, true) == Rest(lines)
  {
    hide EnvKey;
    KeysDiffer();
    if lines != [] {
      KeptAfterHash(lines[1..], hashLine);
    }
  }

  lemma {:induction false} KeptBeforeHash(a: seq<string>, more: seq<string>, hashLine: string)
    requires !HasHash(a)
    ensures Kept(a + more, hashLine, false) == Rest(a) + Kept(more, hashLine, false)
  {
    hide EnvKey, HasHash, Kept;
    var k := Kept(more, hashLine, false);
    if a == [] {
      assert a + more == more;
      assert Rest(a) + k == k;
    } else {
      hide Rest;
      AppendCons(a, more);
      HasHashCons(a[0], a[1..]);
      KeptBeforeHash(a[1..], more, hashLine);
      KeptCons(a[0], a[1..] + more, hashLine, false);
      RestCons(a[0], a[1..]);
      Regroup([a[0]], Rest(a[1..]), k);
    }
  }

  lemma RestCons(ln: string, rest: seq<string>)
    ensures Rest([ln] + rest) ==
            if EnvKey(ln) == HASH_KEY || EnvKey(ln) == PASSWORD_KEY then Rest(rest) else [ln] + Rest(rest)
  {
    hide EnvKey;
    assert ([ln] + rest)[1..] == rest;
  }

  /** The new hash line stands where the first old one stood, and at the end of a file that had
      none; around it every line for another key, blank lines included, stays where it was. */
  lemma HashLineKeepsItsPlace(content: string, escaped: string, a: seq<string>, ln: string, b: seq<string>)
    requires Free(escaped, '\n') && !HasHash(a)
    ensures var end := if EndsInNewline(content) then [""] else [];
            var new' := Split(Rewritten(content, escaped), '\n');
            (Split(content, '\n') == a + [ln] + b && EnvKey(ln) == HASH_KEY ==>
               new' == DropEmptyEnd(Rest(a) + [HashLine(escaped)] + Rest(b)) + end) &&
            (Split(content, '\n') == a ==>
               new' == DropEmptyEnd(Rest(a)) + [HashLine(escaped)] + end)
  {
    hide Split, Rewritten, EnvKey, HashLine, Kept, Rest, DropEmptyEnd, HasHash, Others, HashLines;
    RewrittenLines(content, escaped);
    HashLineKey(escaped);
    KeysDiffer();
    var hashLine := HashLine(escaped);
    if Split(content, '\n') == a + [ln] + b && EnvKey(ln) == HASH_KEY {
      assert a + [ln] + b == a + ([ln] + b);
      KeptBeforeHash(a, [ln] + b, hashLine);
      KeptCons(ln, b, hashLine, false);
      KeptAfterHash(b, hashLine);
      HasHashIn(a, ln, b);
      assert Rest(a) + ([hashLine] + Rest(b)) == Rest(a) + [hashLine] + Rest(b);
    }
    if Split(content, '\n') == a {
      assert a + [] == a;
      KeptBeforeHash(a, [], hashLine);
      KeptNothing(hashLine, false);
      assert Rest(a) + [] == Rest(a);
      EmptyLineHasNoKey();
      NotEmptyEnd(DropEmptyEnd(Rest(a)), hashLine);
    }
  }

  lemma HasHashIn(a: seq<string>, ln: string, b: seq<string>)
    requires EnvKey(ln) == HASH_KEY
    ensures HasHash(a + [ln] + b)
  {
    hide EnvKey;
    assert (a + [ln] + b)[|a|] == ln;
  }

  lemma NotEmptyEnd(lines: seq<string>, ln: string)
    requires ln != ""
    ensures DropEmptyEnd(lines + [ln]) == lines + [ln]
  {}

  // ---------- idempotence ----------

  /** Lines that already carry exactly this hash line and no password line are kept as they are. */
  lemma {:induction false} KeptIdentity(lines: seq<string>, escaped: string, replaced: bool)
    requires NoPassword(lines) && HashLines(lines) == if replaced then [] else [HashLine(escaped)]
    ensures Kept(lines, HashLine(escaped), replaced) == lines
    ensures !replaced ==> HasHash(lines)
  {
    hide EnvKey, HashLine, HasHash, Kept;
    if lines == [] {
      KeptNothing(HashLine(escaped), replaced);
    } else {
      var ln, rest := lines[0], lines[1..];
      assert lines == [ln] + rest;
      KeptCons(ln, rest, HashLine(escaped), replaced);
      HasHashCons(ln, rest);
      if EnvKey(ln) == HASH_KEY {
        assert HashLines(lines)[0] == ln && HashLines(lines)[1..] == HashLines(rest);
        KeptIdentity(rest, escaped, true);
      } else {
        assert HashLines(lines) == HashLines(rest);
        KeptIdentity(rest, escaped, replaced);
      }
    }
  }

  lemma KeptNothing(hashLine: string, replaced: bool)
    ensures Kept([], hashLine, replaced) == []
  {}

  lemma DropsOneEmpty(out: seq<string>)
    requires out != [] && out[|out| - 1] != ""
    ensures DropEmptyEnd(out) == out && DropEmptyEnd(out + [""]) == out
  {
    assert (out + [""])[..|out|] == out;
  }

  lemma NoPasswordEmpty(out: seq<string>)
    requires NoPassword(out)
    ensures NoPassword(out + [""])
  {
    hide EnvKey;
    EmptyLineHasNoKey();
    KeysDiffer();
  }

  lemma NewLinesIdentity(out: seq<string>, escaped: string, end: seq<string>)
    requires HashLines(out) == [HashLine(escaped)] && NoPassword(out) && out != [] && out[|out| - 1] != ""
    requires end == [] || end == [""]
    ensures NewLines(out + end, HashLine(escaped)) == out
  {
    hide EnvKey, HashLine, HasHash, Kept, HashLines, Others, DropEmptyEnd, NoPassword;
    EmptyLineAtEnd(out);
    NoPasswordEmpty(out);
    assert out + [] == out;
    KeptIdentity(out + end, escaped, false);
    DropsOneEmpty(out);
  }

  /** Rewriting twice with the same hash changes nothing more. */
  lemma RewriteIsIdempotent(content: string, escaped: string)
    requires Free(escaped, '\n')
    ensures Rewritten(Rewritten(content, escaped), escaped) == Rewritten(content, escaped)
  {
    hide Split, NewLines, HashLine, Others, HashLines, EnvKey, Join;
    var out := NewLines(Split(content, '\n'), HashLine(escaped));
    RewrittenLines(content, escaped);
    NewLinesLaws(Split(content, '\n'), escaped);
    NewLinesIdentity(out, escaped, if EndsInNewline(content) then [""] else []);
  }

  // ---------- lookups ----------

  /** The line that decides a key: the last one. */
  function Lookup(lines: seq<string>, key: string): Option<string> {
    if lines == [] then None
    else if Lookup(lines[1..], key).Some? then Lookup(lines[1..], key)
    else if EnvKey(lines[0]) == key then Some(lines[0])
    else None
  }

  lemma LookupCons(ln: string, rest: seq<string>, key: string)
    ensures Lookup([ln] + rest, key) ==
            if Lookup(rest, key).Some? then Lookup(rest, key) else if EnvKey(ln) == key then Some(ln) else None
  {
    hide EnvKey;
    assert ([ln] + rest)[1..] == rest;
  }

  lemma {:induction false} LookupInOthers(lines: seq<string>, key: string)
    requires key != "" && key != HASH_KEY && key != PASSWORD_KEY
    ensures Lookup(lines, key) == Lookup(Others(lines), key)
  {
    if lines != [] {
      hide EnvKey, Lookup, Others;
      var ln, rest := lines[0], lines[1..];
      assert lines == [ln] + rest;
      LookupInOthers(rest, key);
      OthersAppend([ln], rest);
      SingleLine(ln);
      EmptyLineHasNoKey();
      LookupCons(ln, rest, key);
      LookupCons(ln, Others(rest), key);
      assert [] + Others(rest) == Others(rest);
    }
  }

  lemma {:induction false} LookupInHashLines(lines: seq<string>)
    ensures Lookup(lines, HASH_KEY) == Lookup(HashLines(lines), HASH_KEY)
  {
    if lines != [] {
      hide EnvKey, Lookup, HashLines;
      var ln, rest := lines[0], lines[1..];
      assert lines == [ln] + rest;
      LookupInHashLines(rest);
      OthersAppend([ln], rest);
      SingleLine(ln);
      LookupCons(ln, rest, HASH_KEY);
      LookupCons(ln, HashLines(rest), HASH_KEY);
      assert [] + HashLines(rest) == HashLines(rest);
    }
  }

  /** Looking up any other key gives the same line as before; looking up the hash key gives the
      new hash line. */
  lemma RewriteLookups(content: string, escaped: string, key: string)
    requires Free(escaped, '\n') && key != "" && key != PASSWORD_KEY
    ensures Lookup(Split(Rewritten(content, escaped), '\n'), key) ==
            if key == HASH_KEY then Some(HashLine(escaped)) else Lookup(Split(content, '\n'), key)
  {
    hide Split, NewLines, HashLine, Others, HashLines, EnvKey, Rewritten;
    var old', new' := Split(content, '\n'), Split(Rewritten(content, escaped), '\n');
    RewriteLaws(content, escaped);
    if key == HASH_KEY {
      LookupInHashLines(new');
      HashLineKey(escaped);
      LookupSingle(HashLine(escaped));
    } else {
      LookupInOthers(old', key);
      LookupInOthers(new', key);
    }
  }

  lemma LookupSingle(ln: string)
    ensures Lookup([ln], EnvKey(ln)) == Some(ln)
  {
    hide EnvKey;
    assert [ln][1..] == [];
  }

  // ---------- the whole way of a password ----------

  lemma {:induction false} UnescapeUndoesEscape(v: string)
    ensures ComposeUnescape(ComposeEscape(v)) == v
  {
    if v != "" {
      var rest := ComposeEscape(v[1..]);
      UnescapeUndoesEscape(v[1..]);
      var e := ComposeEscape(v);
      if v[0] == '$' {
        assert e == "$$" + rest;
        assert e[0] == '$' && e[1] == '$' && e[2..] == rest;
      } else {
        assert e == [v[0]] + rest;
        assert e[0] == v[0] && e[1..] == rest;
      }
      assert v == [v[0]] + v[1..];
    }
  }

  predicate Solid(s: string) {
    forall i :: 0 <= i < |s| ==> s[i] != '\n' && !IsSpace(s[i])
  }

  lemma {:induction false} EscapeIsSolid(v: string)
    requires Solid(v)
    ensures Solid(ComposeEscape(v)) && |ComposeEscape(v)| >= |v|
  {
    if v != "" {
      hide IsSpace;
      assert v[0] == v[0] && Solid([v[0]]);
      assert forall i :: 0 <= i < |v[1..]| ==> v[1..][i] == v[i + 1];
      EscapeIsSolid(v[1..]);
      DollarIsSolid();
    }
  }

  lemma DollarIsSolid()
    ensures !IsSpace('$') && Solid("$") && Solid("$$")
  {}

  lemma SolidJoin(a: string, b: string)
    requires Solid(a) && Solid(b)
    ensures Solid(a + b)
  {}

  lemma HashIsSolid(kdf: Kdf, password: seq<Byte>, salt: seq<Byte>)
    ensures Solid(HashPassword(kdf, password, salt)) && HashPassword(kdf, password, salt) != ""
  {
    hide Encode, Params, IsSpace;
    var key := kdf(password, salt, ITERATIONS, MEM_KIB, THREADS, KEY_LEN);
    EncodeIsPlain(salt);
    EncodeIsPlain(key);
    ParamsArePlain(MEM_KIB, ITERATIONS, THREADS);
    VersionIsSolid();
    DollarIsSolid();
    assert Solid(Encode(salt)) && Solid(Encode(key)) && Solid(Params(MEM_KIB, ITERATIONS, THREADS));
    hide Solid;
    var r5 := "$" + Encode(key);
    SolidJoin("$", Encode(key));
    var r4 := Encode(salt) + r5;
    SolidJoin(Encode(salt), r5);
    SolidJoin("$", r4);
    var r3 := Params(MEM_KIB, ITERATIONS, THREADS) + ("$" + r4);
    SolidJoin(Params(MEM_KIB, ITERATIONS, THREADS), "$" + r4);
    SolidJoin("$", r3);
    var r2 := ("v=" + Decimals.Print(ARGON2_VERSION)) + ("$" + r3);
    SolidJoin("v=" + Decimals.Print(ARGON2_VERSION), "$" + r3);
    SolidJoin("$", r2);
    SolidJoin("argon2id", "$" + r2);
    SolidJoin("$", "argon2id" + ("$" + r2));
  }

  lemma VersionIsSolid()
    ensures Solid("v=" + Decimals.Print(ARGON2_VERSION)) && Solid("argon2id")
  {
    PrintIsPlain(ARGON2_VERSION);
  }

  /** What the command leaves in the file: a fresh file, or the old one rewritten. */
  function FileAfter(content: Option<string>, hash: string): string {
    match content
    case None => HASH_KEY + "=" + ComposeEscape(hash) + "\n"
    case Some(c) => Rewritten(c, ComposeEscape(hash))
  }

  lemma FreshFileLookup(escaped: string)
    requires Free(escaped, '\n')
    ensures Lookup(Split(HASH_KEY + "=" + escaped + "\n", '\n'), HASH_KEY) == Some(HashLine(escaped))
  {
    hide EnvKey, Split;
    HashLineIsFree(escaped);
    assert HASH_KEY + "=" + escaped + "\n" == HashLine(escaped) + ['\n'] + "";
    SplitAtFirst(HashLine(escaped), '\n', "");
    SplitOfFree("", '\n');
    HashLineKey(escaped);
    EmptyLineHasNoKey();
    KeysDiffer();
    LookupInHashLines([HashLine(escaped)] + [""]);
    OthersAppend([HashLine(escaped)], [""]);
    SingleLine(HashLine(escaped));
    SingleLine("");
    LookupSingle(HashLine(escaped));
    assert [HashLine(escaped)] + [] == [HashLine(escaped)];
  }

  /** For every password and salt and whatever the file held before: the hash read back from the
      file and unescaped accepts exactly the attempts that derive the password's key. */
  lemma SetPasswordRoundTrip(content: Option<string>, kdf: Kdf, password: seq<Byte>, salt: seq<Byte>, attempt: seq<Byte>)
    requires Sized(kdf) && |salt| > 0
    ensures var ln := Lookup(Split(FileAfter(content, HashPassword(kdf, password, salt)), '\n'), HASH_KEY);
            ln.Some? &&
            (VerifyPassword(kdf, ComposeUnescape(EnvValue(ln.value)), attempt) <==>
             kdf(attempt, salt, 2, 19456, 1, 32) == kdf(password, salt, 2, 19456, 1, 32))
  {
    hide Split, Lookup, EnvValue, ComposeUnescape, ComposeEscape, VerifyPassword, HashPassword, Rewritten, HashLine, IsSpace;
    var hash := HashPassword(kdf, password, salt);
    var escaped := ComposeEscape(hash);
    HashIsSolid(kdf, password, salt);
    EscapeIsSolid(hash);
    SolidIsFree(escaped);
    match content {
      case None => FreshFileLookup(escaped);
      case Some(c) =>
        KeysDiffer();
        RewriteLookups(c, escaped, HASH_KEY);
    }
    HashLineValue(escaped);
    UnescapeUndoesEscape(hash);
    VerifiesExactlyEqualKeys(kdf, password, salt, attempt);
  }

  lemma SolidIsFree(s: string)
    requires Solid(s)
    ensures Free(s, '\n')
  {}
}
