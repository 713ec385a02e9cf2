/**
 * The file materializer of the download manager: from a URL and the name the
 * engine suggests, a safe file name, and from that a path in the download
 * directory that does not collide with an existing file.
 *
 * Paths follow POSIX `std::filesystem::path`: '/' is the only directory
 * separator of a path, while the name derived from a URL is cut at either
 * '/' or '\'.
 */
module Materializer {
  import opened Wrappers
  import opened Strings

  /** The name used whenever a derived or sanitized name comes out empty. */
  const DefaultFilename: string := "download"

  /** Number of numbered candidates probed before giving up: " (1)" to " (999)". */
  const MaxCandidates: nat := 999

  predicate IsUrlSeparator(c: char) {
    c == '/' || c == '\\'
  }

  predicate IsQueryOrFragmentMark(c: char) {
    c == '?' || c == '#'
  }

  predicate NoSeparator(s: string) {
    forall i :: 0 <= i < |s| ==> !IsUrlSeparator(s[i])
  }

  predicate NoQueryOrFragmentMark(s: string) {
    forall i :: 0 <= i < |s| ==> !IsQueryOrFragmentMark(s[i])
  }

  /**
   * The index just after the last '/' or '\' of s, or 0 when s has neither
   * (`find_last_of` plus one, with `npos` mapped to 0).
   */
  function FindLastPathSeparator(s: string): (start: nat)
    ensures start <= |s|
    ensures start > 0 ==> IsUrlSeparator(s[start - 1])
    ensures NoSeparator(s[start..])
  {
    if s == [] then 0
    else if IsUrlSeparator(s[|s| - 1]) then |s|
    else FindLastPathSeparator(s[..|s| - 1])
  }

  /** The text before the first '?' or '#', or all of s when it has neither. */
  function StripQueryAndFragment(s: string): (r: string)
    ensures r <= s
    ensures NoQueryOrFragmentMark(r)
    ensures |r| < |s| ==> IsQueryOrFragmentMark(s[|r|])
  {
    if s == [] || IsQueryOrFragmentMark(s[0]) then [] else [s[0]] + StripQueryAndFragment(s[1..])
  }

  /**
   * The suggested name when there is one; otherwise the last path segment of
   * the URL without its query and fragment; "download" when that is empty.
   */
  function DeriveFilename(url: string, suggested: string): (name: string)
    ensures name != []
  {
    if suggested != [] then suggested
    else
      var trimmed := StripQueryAndFragment(url);
      var name := trimmed[FindLastPathSeparator(trimmed)..];
      if name == [] then DefaultFilename else name
  }

  /** A non-empty suggestion is the name, unchanged. */
  lemma DeriveFilenameSuggested(url: string, suggested: string)
    requires suggested != []
    ensures DeriveFilename(url, suggested) == suggested
  {
  }

  /** seg ends s, holds no separator, and follows a separator unless it is all of s. */
  predicate IsLastSegment(seg: string, s: string) {
    |seg| <= |s| && s[|s| - |seg|..] == seg && NoSeparator(seg) &&
    (|seg| == |s| || IsUrlSeparator(s[|s| - |seg| - 1]))
  }

  /**
   * Without a suggestion, the name is the URL's last segment whenever that is
   * not empty: the tail of the URL, cut at its query or fragment, that
   * follows the last '/' or '\'. The segment may itself be "download".
   */
  lemma DeriveFilenameSegment(url: string, seg: string)
    requires IsLastSegment(seg, StripQueryAndFragment(url)) && seg != []
    ensures DeriveFilename(url, "") == seg && NoQueryOrFragmentMark(seg)
  {
    var trimmed := StripQueryAndFragment(url);
    var start := FindLastPathSeparator(trimmed);
    LastSegment(trimmed);
    LastSegmentUnique(seg, trimmed[start..], trimmed);
    SuffixKeepsNoMark(trimmed, start);
  }

  /** A text has only one last segment. */
  lemma LastSegmentUnique(a: string, b: string, s: string)
    requires IsLastSegment(a, s) && IsLastSegment(b, s)
    ensures a == b
  {
  }

  /** The text after the last separator is the last segment. */
  lemma LastSegment(s: string)
    ensures IsLastSegment(s[FindLastPathSeparator(s)..], s)
  {
    var start := FindLastPathSeparator(s);
    assert |s| - |s[start..]| == start;
  }

  lemma SuffixKeepsNoMark(s: string, k: nat)
    requires k <= |s| && NoQueryOrFragmentMark(s)
    ensures NoQueryOrFragmentMark(s[k..])
  {
    forall i | 0 <= i < |s| - k
      ensures !IsQueryOrFragmentMark(s[k..][i])
    {
      assert s[k..][i] == s[k + i];
    }
  }

  /** Without a suggestion, a URL whose last segment is empty gives "download". */
  lemma DeriveFilenameEmptySegment(url: string)
    requires var trimmed := StripQueryAndFragment(url);
      trimmed == [] || IsUrlSeparator(trimmed[|trimmed| - 1])
    ensures DeriveFilename(url, "") == DefaultFilename
  {
    var trimmed := StripQueryAndFragment(url);
    if trimmed != [] {
      assert FindLastPathSeparator(trimmed) == |trimmed|;
    }
  }

  // ---------------------------------------------------------------------------
  // Sanitizing a file name

  /** The nine characters SanitizeFilename refuses besides control bytes. */
  const ReservedFilenameChars: string := "\\/:*?\"<>|"

  /**
   * The bytes SanitizeFilename drops: control bytes below 32 and the reserved
   * characters. Both path separators and NUL go; letters, digits and the usual
   * punctuation of file names stay.
   */
  predicate IsInvalidFilenameChar(c: char): (b: bool)
    ensures c == '/' || c == '\\' || c == '\0' ==> b
    ensures 'a' <= c <= 'z' || 'A' <= c <= 'Z' || '0' <= c <= '9' || c == '.' || c == ' ' || c == '-' || c == '_' ==> !b
  {
    c as int < 32 || c in ReservedFilenameChars
  }

  predicate IsSafeFilename(s: string) {
    forall i :: 0 <= i < |s| ==> !IsInvalidFilenameChar(s[i])
  }

  /** The characters of s that are not invalid, in their order. */
  function KeepValid(s: string): (r: string)
    ensures |r| <= |s| && IsSafeFilename(r)
  {
    if s == [] then []
    else
      var init := KeepValid(s[..|s| - 1]);
      if IsInvalidFilenameChar(s[|s| - 1]) then init else init + [s[|s| - 1]]
  }

  /** The sanitized name: the valid characters, or "download" when none is left. */
  function SanitizedName(s: string): (r: string)
    ensures r != [] && IsSafeFilename(r)
    ensures r == (if KeepValid(s) == [] then DefaultFilename else KeepValid(s))
  {
    var kept := KeepValid(s);
    if kept == [] then DefaultFilename else kept
  }

  /** Filtering distributes over concatenation, so it keeps the valid characters in their order. */
  lemma {:induction false} KeepValidAppend(a: string, b: string)
    ensures KeepValid(a + b) == KeepValid(a) + KeepValid(b)
    decreases |b|
  {
    if b == [] {
      assert a + b == a;
    } else {
      var init := b[..|b| - 1];
      assert (a + b)[..|a + b| - 1] == a + init;
      KeepValidAppend(a, init);
    }
  }

  /** A name with no invalid character is left as it is. */
  lemma {:induction false} KeepValidOfSafe(s: string)
    requires IsSafeFilename(s)
    ensures KeepValid(s) == s
  {
    if s != [] {
      KeepValidOfSafe(s[..|s| - 1]);
    }
  }

  /** Every character of s survives filtering exactly when it is valid. */
  lemma {:induction false} KeepValidSingle(c: char)
    ensures KeepValid([c]) == if IsInvalidFilenameChar(c) then [] else [c]
  {
    assert [c][..0] == [];
  }

  /** An invalid character between two parts is dropped and the parts are filtered on their own. */
  lemma KeepValidDrops(a: string, c: char, b: string)
    requires IsInvalidFilenameChar(c)
    ensures KeepValid(a + [c] + b) == KeepValid(a) + KeepValid(b)
  {
    KeepValidAppend(a, [c]);
    KeepValidAppend(a + [c], b);
    KeepValidSingle(c);
  }

  /** Sanitizing a sanitized name changes nothing. */
  lemma SanitizeIdempotent(s: string)
    ensures SanitizedName(SanitizedName(s)) == SanitizedName(s)
  {
    KeepValidOfSafe(SanitizedName(s));
  }

  /** "bad:name?.txt" is sanitized to "badname.txt". */
  lemma SanitizeExample(s: string)
    requires s == "bad:name?.txt"
    ensures SanitizedName(s) == "badname.txt"
  {
    var front := "bad" + [':'] + "name";
    KeepValidOfExampleFront(front);
    assert s == front + ['?'] + ".txt";
    KeepValidDrops(front, '?', ".txt");
    KeepValidOfSafe(".txt");
    assert KeepValid(s) == "badname" + ".txt";
  }

  lemma KeepValidOfExampleFront(front: string)
    requires front == "bad" + [':'] + "name"
    ensures KeepValid(front) == "badname"
  {
    KeepValidDrops("bad", ':', "name");
    KeepValidOfSafe("bad");
    KeepValidOfSafe("name");
  }

  /** The filtering loop: each valid character is appended, then an empty result becomes "download". */
  method SanitizeFilename(filename: string) returns (result: string)
    ensures result == SanitizedName(filename)
  {
    result := "";
    for i := 0 to |filename|
      invariant result == KeepValid(filename[..i])
    {
      var c := filename[i];
      assert filename[..i + 1][..i] == filename[..i];
      if c as int < 32 {
        continue;
      }
      if c in "\\/:*?\"<>|" {
        continue;
      }
      result := result + [c];
    }
    assert filename[..|filename|] == filename;
    if result == [] {
      result := DefaultFilename;
    }
  }

  // ---------------------------------------------------------------------------
  // Paths inside the download directory

  /** `dir / name` on POSIX: an absolute name replaces dir, otherwise one '/' joins them. */
  function JoinPath(dir: string, name: string): (p: string)
    ensures |name| <= |p| && p[|p| - |name|..] == name
    ensures (name == [] || name[0] != '/') ==> dir <= p
  {
    if name != [] && name[0] == '/' then name
    else if dir == [] then name
    else if dir[|dir| - 1] == '/' then dir + name
    else dir + "/" + name
  }

  /** `path::filename()`: the text after the last '/'. */
  function FileName(path: string): (name: string)
    ensures |name| <= |path|
    ensures forall i :: 0 <= i < |name| ==> name[i] != '/'
  {
    if path == [] || path[|path| - 1] == '/' then []
    else FileName(path[..|path| - 1]) + [path[|path| - 1]]
  }

  /** The file name is the longest tail of the path without a '/'. */
  lemma {:induction false} FileNameSpec(path: string)
    ensures var name := FileName(path);
      |name| <= |path| && path[|path| - |name|..] == name &&
      (forall i :: 0 <= i < |name| ==> name[i] != '/') &&
      (|name| < |path| ==> path[|path| - |name| - 1] == '/')
  {
    if path != [] && path[|path| - 1] != '/' {
      var init := path[..|path| - 1];
      FileNameSpec(init);
      var name := FileName(path);
      assert name == FileName(init) + [path[|path| - 1]];
      assert path == init + [path[|path| - 1]];
    }
  }

  /** The index of the last '.' of s, if any. */
  function LastDot(s: string): (r: Option<nat>)
    ensures r.Some? ==> r.value < |s| && s[r.value] == '.' && forall i :: r.value < i < |s| ==> s[i] != '.'
    ensures r.None? ==> forall i :: 0 <= i < |s| ==> s[i] != '.'
  {
    if s == [] then None
    else if s[|s| - 1] == '.' then Some(|s| - 1)
    else LastDot(s[..|s| - 1])
  }

  /**
   * Where `path::extension()` starts in a file name: at the last '.', unless the
   * name is "." or "..", has no '.', or its only relevant '.' is its first character.
   */
  function ExtensionStart(name: string): (k: nat)
    ensures k <= |name|
    ensures k < |name| ==> name[k] == '.' && 0 < k && forall i :: k < i < |name| ==> name[i] != '.'
    ensures k == |name| ==> name == "." || name == ".." || forall i :: 0 < i < |name| ==> name[i] != '.'
    ensures k < |name| <==> name != "." && name != ".." && exists i :: 0 < i < |name| && name[i] == '.'
  {
    if name == "." || name == ".." then |name|
    else match LastDot(name)
      case None => |name|
      case Some(d) => if d == 0 then |name| else d
  }

  /** `path::stem()`: the file name up to where its extension starts. */
  function Stem(name: string): (r: string)
    ensures r <= name && (|r| < |name| ==> name[|r|] == '.')
  {
    name[..ExtensionStart(name)]
  }

  /** `path::extension()`: empty, or the last '.' and what follows it; stem and extension make up the name. */
  function Extension(name: string): (e: string)
    ensures Stem(name) + e == name
    ensures e == [] || (e[0] == '.' && forall i :: 0 < i < |e| ==> e[i] != '.')
  {
    name[ExtensionStart(name)..]
  }

  /** The i-th alternative name: "stem (i)ext". */
  function Candidate(stem: string, ext: string, i: nat): (c: string)
    ensures stem <= c && |stem| + |ext| + 3 < |c|
    ensures c[|c| - |ext|..] == ext && c[|stem|..|stem| + 2] == " ("
  {
    stem + " (" + NatToString(i) + ")" + ext
  }

  /** Whether the i-th candidate for the file name `name` already exists in dir. */
  predicate CandidateTaken(dir: string, name: string, existing: set<string>, i: nat) {
    JoinPath(dir, Candidate(Stem(name), Extension(name), i)) in existing
  }

  /** The probe as a predicate on the candidate number. */
  function TakenCandidates(dir: string, name: string, existing: set<string>): nat -> bool {
    (i: nat) => CandidateTaken(dir, name, existing, i)
  }

  /** The first i in [from, 999] that `taken` does not hold of, if any. */
  function FirstFree(taken: nat -> bool, from: nat): (r: Option<nat>)
    requires 1 <= from <= MaxCandidates + 1
    ensures r.Some? ==> from <= r.value <= MaxCandidates && !taken(r.value)
    decreases MaxCandidates + 1 - from
  {
    if from == MaxCandidates + 1 then None
    else if !taken(from) then Some(from)
    else FirstFree(taken, from + 1)
  }

  /** The path EnsureUniquePath settles on, given the paths that already exist. */
  function UniquePath(dir: string, baseName: string, existing: set<string>): (p: string)
    ensures (baseName == [] || baseName[0] != '/') ==> dir <= p
  {
    var path := JoinPath(dir, baseName);
    var name := FileName(path);
    var free := FirstFree(TakenCandidates(dir, name, existing), 1);
    if path !in existing || free.None? then path
    else JoinPath(dir, Candidate(Stem(name), Extension(name), free.value))
  }

  /** FirstFree finds the least free number, or None when every number from `from` on is taken. */
  lemma {:induction false} FirstFreeSpec(taken: nat -> bool, from: nat)
    requires 1 <= from <= MaxCandidates + 1
    ensures match FirstFree(taken, from)
      case Some(i) => from <= i <= MaxCandidates && !taken(i) && forall j :: from <= j < i ==> taken(j)
      case None => forall j :: from <= j <= MaxCandidates ==> taken(j)
    decreases MaxCandidates + 1 - from
  {
    if from <= MaxCandidates && taken(from) {
      FirstFreeSpec(taken, from + 1);
    }
  }

  /** When every number in [from, i) is taken and i is not, FirstFree from `from` finds i. */
  lemma {:induction false} FirstFreeLeast(taken: nat -> bool, from: nat, i: nat)
    requires 1 <= from <= i <= MaxCandidates && !taken(i)
    requires forall j :: from <= j < i ==> taken(j)
    ensures FirstFree(taken, from) == Some(i)
    decreases i - from
  {
    if from < i {
      FirstFreeLeast(taken, from + 1, i);
    }
  }

  /** What UniquePath is when `dir/base` is taken, with the probe result named. */
  lemma UniquePathTaken(dir: string, baseName: string, existing: set<string>)
    requires JoinPath(dir, baseName) in existing
    ensures var name := FileName(JoinPath(dir, baseName));
      var free := FirstFree(TakenCandidates(dir, name, existing), 1);
      UniquePath(dir, baseName, existing) ==
        if free.None? then JoinPath(dir, baseName) else JoinPath(dir, Candidate(Stem(name), Extension(name), free.value))
  {
  }

  /** A free `dir/base` is used as it is. */
  lemma UniquePathWhenFree(dir: string, baseName: string, existing: set<string>)
    requires JoinPath(dir, baseName) !in existing
    ensures UniquePath(dir, baseName, existing) == JoinPath(dir, baseName)
  {
  }

  /**
   * When `dir/base` is taken and i is the least number in 1..999 whose candidate
   * is free, the result is that candidate, and it is not taken.
   */
  lemma UniquePathWhenTaken(dir: string, baseName: string, existing: set<string>, i: nat)
    requires JoinPath(dir, baseName) in existing
    requires 1 <= i <= MaxCandidates
    requires !CandidateTaken(dir, FileName(JoinPath(dir, baseName)), existing, i)
    requires forall j :: 1 <= j < i ==> CandidateTaken(dir, FileName(JoinPath(dir, baseName)), existing, j)
    ensures var name := FileName(JoinPath(dir, baseName));
      UniquePath(dir, baseName, existing) == JoinPath(dir, Candidate(Stem(name), Extension(name), i))
    ensures UniquePath(dir, baseName, existing) !in existing
  {
    var name := FileName(JoinPath(dir, baseName));
    FirstFreeLeast(TakenCandidates(dir, name, existing), 1, i);
    UniquePathTaken(dir, baseName, existing);
  }

  /** When `dir/base` and all 999 candidates are taken, the result is `dir/base` after all. */
  lemma UniquePathWhenExhausted(dir: string, baseName: string, existing: set<string>)
    requires JoinPath(dir, baseName) in existing
    requires forall j :: 1 <= j <= MaxCandidates ==> CandidateTaken(dir, FileName(JoinPath(dir, baseName)), existing, j)
    ensures UniquePath(dir, baseName, existing) == JoinPath(dir, baseName)
  {
    var name := FileName(JoinPath(dir, baseName));
    FirstFreeSpec(TakenCandidates(dir, name, existing), 1);
    UniquePathTaken(dir, baseName, existing);
  }

  /** The result is free unless `dir/base` and all 999 candidates are taken. */
  lemma UniquePathIsFree(dir: string, baseName: string, existing: set<string>)
    ensures UniquePath(dir, baseName, existing) in existing ==>
      UniquePath(dir, baseName, existing) == JoinPath(dir, baseName) &&
      forall j :: 1 <= j <= MaxCandidates ==> CandidateTaken(dir, FileName(JoinPath(dir, baseName)), existing, j)
  {
    if JoinPath(dir, baseName) in existing {
      var name := FileName(JoinPath(dir, baseName));
      var taken := TakenCandidates(dir, name, existing);
      FirstFreeSpec(taken, 1);
      UniquePathTaken(dir, baseName, existing);
      match FirstFree(taken, 1)
      case Some(i) =>
        assert !taken(i);
      case None =>
        forall j | 1 <= j <= MaxCandidates
          ensures CandidateTaken(dir, name, existing, j)
        {
          assert taken(j);
        }
    }
  }

  /** After a '/' (or at the start), a name without '/' is the whole file name. */
  lemma {:induction false} FileNameAfterSlash(prefix: string, name: string)
    requires prefix == [] || prefix[|prefix| - 1] == '/'
    requires forall i :: 0 <= i < |name| ==> name[i] != '/'
    ensures FileName(prefix + name) == name
    decreases |name|
  {
    if name == [] {
      assert prefix + name == prefix;
    } else {
      var init := name[..|name| - 1];
      FileNameAfterSlash(prefix, init);
      assert (prefix + name)[..|prefix + name| - 1] == prefix + init;
      assert name == init + [name[|name| - 1]];
    }
  }

  /** Joining a relative name without '/' to a directory gives back that name as the file name. */
  lemma FileNameOfJoin(dir: string, name: string)
    requires name != [] && forall i :: 0 <= i < |name| ==> name[i] != '/'
    ensures FileName(JoinPath(dir, name)) == name
  {
    if dir == [] {
      FileNameAfterSlash([], name);
      assert [] + name == name;
    } else if dir[|dir| - 1] == '/' {
      FileNameAfterSlash(dir, name);
    } else {
      FileNameAfterSlash(dir + "/", name);
      assert dir + "/" + name == (dir + "/") + name;
    }
  }

  lemma StemExample()
    ensures Stem("a.txt") == "a" && Extension("a.txt") == ".txt"
  {
    assert LastDot("a.") == Some(1);
    assert "a.t"[..2] == "a.";
    assert LastDot("a.t") == Some(1);
    assert "a.tx"[..3] == "a.t";
    assert LastDot("a.tx") == Some(1);
    assert "a.txt"[..4] == "a.tx";
    assert LastDot("a.txt") == Some(1);
  }

  /**
   * Returns `dir/base` when no such file exists, else probes "stem (1)ext" up to
   * "stem (999)ext" and returns the first free one, else gives back `dir/base`.
   */
  method EnsureUniquePath(dir: string, baseName: string, existing: set<string>) returns (path: string)
    ensures path == UniquePath(dir, baseName, existing)
    ensures path !in existing || path == JoinPath(dir, baseName)
  {
    path := JoinPath(dir, baseName);
    if path !in existing {
      return;
    }
    var name := FileName(path);
    var stem := Stem(name);
    var extension := Extension(name);
    ghost var taken := TakenCandidates(dir, name, existing);
    UniquePathTaken(dir, baseName, existing);
    var i := 1;
    while i < MaxCandidates + 1
      invariant 1 <= i <= MaxCandidates + 1
      invariant FirstFree(taken, 1) == FirstFree(taken, i)
    {
      var candidatePath := JoinPath(dir, Candidate(stem, extension, i));
      if candidatePath !in existing {
        assert !taken(i);
        return candidatePath;
      }
      assert taken(i);
      i := i + 1;
    }
  }
}
