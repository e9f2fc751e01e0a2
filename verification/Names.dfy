/** Path names of kernel/fs/fat12.c: an optional drive prefix, then an 8.3 name. */
module Names {
  import opened Words
  import opened Directory

  const SPACE: Byte := 32
  const DOT: Byte := 46
  const SLASH: Byte := 47
  const COLON: Byte := 58

  function Fat12ToUpper(c: Byte): Byte {
    if 97 <= c <= 122 then c - 32 else c
  }

  function Upper(s: seq<Byte>): (r: seq<Byte>)
    ensures |r| == |s|
  {
    seq(|s|, i requires 0 <= i < |s| => Fat12ToUpper(s[i]))
  }

  function Padded(s: seq<Byte>, length: nat): (r: seq<Byte>)
    requires |s| <= length
    ensures |r| == length
  {
    s + seq(length - |s|, _ => SPACE)
  }

  /** "FD" or "HD": the path must go on with a drive digit, a colon and a slash. */
  predicate HasDrivePrefix(path: seq<Byte>) {
    |path| >= 2 && (path[..2] == [70, 68] || path[..2] == [72, 68])
  }

  /** The path behind its prefix, if that is well formed. */
  function Stripped(path: seq<Byte>): Option<seq<Byte>> {
    if HasDrivePrefix(path) then
      if |path| >= 5 && 48 <= path[2] <= 57 && path[3] == COLON && path[4] == SLASH then Some(path[5..]) else None
    else if path != [] && path[0] == SLASH then Some(path[1..])
    else Some(path)
  }

  predicate Plain(s: seq<Byte>) {
    DOT !in s && SLASH !in s
  }

  /** `rest` is `base`, or `base` dot `ext`, within 8.3. */
  predicate Splits(rest: seq<Byte>, base: seq<Byte>, ext: seq<Byte>) {
    && (rest == base + [DOT] + ext || (ext == [] && rest == base))
    && 0 < |base| <= 8 && |ext| <= 3 && Plain(base) && Plain(ext)
  }

  function NameOf(base: seq<Byte>, ext: seq<Byte>): Name
    requires |base| <= 8 && |ext| <= 3
  {
    Padded(Upper(base), 8) + Padded(Upper(ext), 3)
  }

  /** The directory name a path stands for: exactly when its rest is an 8.3 name. */
  ghost predicate Denotes(path: seq<Byte>, name: Name) {
    exists base, ext :: Stripped(path).Some? && Splits(Stripped(path).value, base, ext) && name == NameOf(base, ext)
  }

  ghost function NameFor(path: seq<Byte>): (r: Option<Name>)
    ensures r.Some? ==> Denotes(path, r.value)
    ensures r.None? ==> forall name: Name :: !Denotes(path, name)
  {
    if exists name: Name :: Denotes(path, name) then var name: Name :| Denotes(path, name); Some(name) else None
  }

  /** The scan so far: everything before `at` has gone to `base` and `ext`. */
  predicate Scanned(rest: seq<Byte>, base: seq<Byte>, ext: seq<Byte>, seenDot: bool) {
    && rest == (if seenDot then base + [DOT] + ext else base)
    && (seenDot ==> base != []) && (!seenDot ==> ext == [])
    && |base| <= 8 && |ext| <= 3 && Plain(base) && Plain(ext)
  }

  /** The first dot of `s` is at `k`, or there is none and `k` is the end. */
  predicate FirstDotAt(s: seq<Byte>, k: nat) {
    k <= |s| && (forall i :: 0 <= i < k ==> s[i] != DOT) && (k < |s| ==> s[k] == DOT)
  }

  function FirstDot(s: seq<Byte>): (k: nat)
    ensures FirstDotAt(s, k)
  {
    if s == [] || s[0] == DOT then 0 else FirstDot(s[1..]) + 1
  }

  lemma FirstDotIs(s: seq<Byte>, k: nat)
    requires FirstDotAt(s, k)
    ensures FirstDot(s) == k
  {
  }

  lemma SplitAtDot(rest: seq<Byte>, base: seq<Byte>, ext: seq<Byte>)
    requires Splits(rest, base, ext)
    ensures |base| == FirstDot(rest) && base == rest[..FirstDot(rest)]
    ensures ext == if FirstDot(rest) < |rest| then rest[FirstDot(rest) + 1..] else []
  {
    assert rest[..|base|] == base;
    assert forall i :: 0 <= i < |base| ==> rest[i] == base[i];
    FirstDotIs(rest, |base|);
  }

  /** A split of the whole path begins with the scan so far. */
  lemma SplitExtends(rest: seq<Byte>, at: nat, base: seq<Byte>, ext: seq<Byte>, seenDot: bool, b: seq<Byte>,
      e: seq<Byte>)
    requires at < |rest| && Scanned(rest[..at], base, ext, seenDot) && Splits(rest, b, e)
    ensures rest[at] != SLASH
    ensures seenDot ==> rest[at] != DOT && |ext| < 3
    ensures !seenDot && rest[at] != DOT ==> |base| < 8
    ensures rest[at] == DOT ==> base != []
  {
    SplitAtDot(rest, b, e);
    if seenDot {
      assert forall k :: 0 <= k <= |base| ==> rest[k] == rest[..at][k];
      FirstDotIs(rest, |base|);
      assert rest[at] == e[at - |base| - 1];
    } else if at == |b| {
    } else {
      assert forall k :: 0 <= k < at ==> rest[k] == base[k];
      assert at < |b| && rest[at] == b[at];
    }
  }

  method Fat12NormalizeName(path: seq<Byte>) returns (r: Option<Name>)
    ensures r == NameFor(path)
  {
    var rest := path;
    if HasDrivePrefix(path) {
      if |path| < 5 || path[2] < 48 || path[2] > 57 || path[3] != COLON || path[4] != SLASH {
        return None;
      }
      rest := path[5..];
    } else if path != [] && path[0] == SLASH {
      rest := path[1..];
    }
    if rest == [] {
      return None;
    }
    var base, ext: seq<Byte>, seenDot := [], [], false;
    var i: nat := 0;
    while i < |rest|
      invariant i <= |rest| && Scanned(rest[..i], base, ext, seenDot)
    {
      var c := rest[i];
      assert rest[..i + 1] == rest[..i] + [c];
      forall b, e | Splits(rest, b, e)
        ensures c != SLASH && (seenDot ==> c != DOT && |ext| < 3)
          && (!seenDot && c != DOT ==> |base| < 8) && (c == DOT ==> base != [])
      {
        SplitExtends(rest, i, base, ext, seenDot, b, e);
      }
      if c == SLASH {
        return None;
      }
      if c == DOT {
        if seenDot || |base| == 0 {
          return None;
        }
        seenDot := true;
      } else if seenDot {
        if |ext| >= 3 {
          return None;
        }
        ext := ext + [c];
      } else {
        if |base| >= 8 {
          return None;
        }
        base := base + [c];
      }
      i := i + 1;
    }
    assert rest[..i] == rest;
    assert Splits(rest, base, ext);
    assert Denotes(path, NameOf(base, ext));
    DenotesOne(path, NameOf(base, ext), NameFor(path).value);
    return Some(NameOf(base, ext));
  }

  /** A path denotes at most one name. */
  lemma DenotesOne(path: seq<Byte>, a: Name, b: Name)
    requires Denotes(path, a) && Denotes(path, b)
    ensures a == b
  {
    var rest := Stripped(path).value;
    var b1, e1 :| Splits(rest, b1, e1) && a == NameOf(b1, e1);
    var b2, e2 :| Splits(rest, b2, e2) && b == NameOf(b2, e2);
    SplitUnique(rest, b1, e1, b2, e2);
  }

  lemma SplitUnique(rest: seq<Byte>, b1: seq<Byte>, e1: seq<Byte>, b2: seq<Byte>, e2: seq<Byte>)
    requires Splits(rest, b1, e1) && Splits(rest, b2, e2)
    ensures b1 == b2 && e1 == e2
  {
    SplitAtDot(rest, b1, e1);
    SplitAtDot(rest, b2, e2);
  }

  /** A name from a path without zero bytes never reads as an end marker. */
  lemma DenotesNonzero(path: seq<Byte>, name: Name)
    requires Denotes(path, name) && 0 !in path
    ensures name[0] != 0
  {
    var base, ext :| Splits(Stripped(path).value, base, ext) && name == NameOf(base, ext);
    assert base[0] == Stripped(path).value[0];
    assert base[0] in path;
  }

  // ----------------------------------------------------------------- by bytes

  /** `rest` is what the path names: behind FD or HD, a digit, colon and slash; behind a slash;
      or all of it. */
  predicate IsForm(path: seq<Byte>, rest: seq<Byte>) {
    if |path| >= 2 && path[0] in {0x46, 0x48} && path[1] == 0x44
    then |path| >= 5 && 0x30 <= path[2] <= 0x39 && path[3] == 0x3A && path[4] == 0x2F && rest == path[5..]
    else if |path| >= 1 && path[0] == 0x2F then rest == path[1..]
    else rest == path
  }

  /** One to eight characters, then perhaps a dot and up to three, with no dot or slash else. */
  predicate IsSplit(rest: seq<Byte>, base: seq<Byte>, ext: seq<Byte>) {
    && (rest == base + [0x2E] + ext || (rest == base && ext == []))
    && 1 <= |base| <= 8 && |ext| <= 3 && 0x2E !in base && 0x2F !in base && 0x2E !in ext && 0x2F !in ext
  }

  /** A letter from a to z becomes upper case; nothing else changes. */
  function Raised(c: Byte): Byte {
    if 0x61 <= c <= 0x7A then c - 0x20 else c
  }

  /** Eight bytes of name and three of extension, in upper case, filled up with spaces. */
  predicate IsPadded11(name: Name, base: seq<Byte>, ext: seq<Byte>) {
    forall i :: 0 <= i < 11 ==>
      name[i] == if i < 8 then if i < |base| then Raised(base[i]) else 0x20
                 else if i - 8 < |ext| then Raised(ext[i - 8]) else 0x20
  }

  /** A path stands for a name exactly if it has such a form, split and padding. */
  lemma NameByBytes(path: seq<Byte>, name: Name)
    ensures NameFor(path) == Some(name) <==>
      exists rest, base, ext :: IsForm(path, rest) && IsSplit(rest, base, ext) && IsPadded11(name, base, ext)
  {
    if NameFor(path) == Some(name) {
      var rest := Stripped(path).value;
      var base, ext :| Splits(rest, base, ext) && name == NameOf(base, ext);
      FormIs(path, rest);
      PaddedIs(name, base, ext);
      assert IsSplit(rest, base, ext);
    }
    if rest, base, ext :| IsForm(path, rest) && IsSplit(rest, base, ext) && IsPadded11(name, base, ext) {
      FormIs(path, rest);
      PaddedIs(name, base, ext);
      assert Splits(rest, base, ext);
      assert Denotes(path, name);
      DenotesOne(path, name, NameFor(path).value);
    }
  }

  lemma FormIs(path: seq<Byte>, rest: seq<Byte>)
    ensures IsForm(path, rest) <==> Stripped(path) == Some(rest)
  {
    assert |path| >= 2 ==> path[..2] == [path[0], path[1]];
  }

  lemma PaddedIs(name: Name, base: seq<Byte>, ext: seq<Byte>)
    requires |base| <= 8 && |ext| <= 3
    ensures IsPadded11(name, base, ext) <==> name == NameOf(base, ext)
  {
    var n := NameOf(base, ext);
    assert forall i :: 0 <= i < 11 ==>
        n[i] == if i < 8 then Padded(Upper(base), 8)[i] else Padded(Upper(ext), 3)[i - 8];
  }

  /** An 8.3 name is refused exactly if it begins like a drive. */
  lemma RefusedLikeDrive(path: seq<Byte>, base: seq<Byte>, ext: seq<Byte>)
    requires Splits(path, base, ext)
    ensures NameFor(path) == None <==> HasDrivePrefix(path)
  {
    hide NameOf;
    assert forall i :: 0 <= i < |path| ==> path[i] in base || path[i] == DOT || path[i] in ext;
    if !HasDrivePrefix(path) {
      assert path[0] == base[0] && Stripped(path) == Some(path);
      assert Denotes(path, NameOf(base, ext));
    }
  }

  /** A path whose name is an 8.3 name and yet is refused: it begins like a drive. */
  lemma FdiskIsRefused()
    ensures var path := [70, 68, 73, 83, 75, 46, 69, 88, 69];
      Splits(path, [70, 68, 73, 83, 75], [69, 88, 69]) && NameFor(path) == None
  {
    var path := [70, 68, 73, 83, 75, 46, 69, 88, 69];
    assert path[..2] == [70, 68];
    assert Stripped(path) == None;
  }
}
