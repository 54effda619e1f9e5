/**
 The two file-patching helpers of nix_update/update.py: `update_version`,
 which writes the new version over every occurrence of the old one, and
 `replace_hash`, which writes a new hash once both hashes are normalised to
 SRI form by `to_sri`.

 A file is the sequence of its lines as `fileinput` yields them (each with
 its line terminator). The `nix to-sri` command and the `re.sub` call are
 parameters.
 */
module Patching {
  import opened Wrappers
  import opened Text

  /** What an update does to a file: leave it alone, or write these lines
      in place of the old ones. */
  datatype FileEdit = Untouched | Rewritten(lines: seq<string>)

  /** `update_version` asserts that a new version was chosen. */
  datatype UpdateError = NewVersionMissing

  // ---- update_version ----

  /** Drops one leading `v`: `v1.2` becomes `1.2`, `vv1.2` becomes `v1.2`. */
  function StripLeadingV(v: string): (r: string)
    ensures v != [] && v[0] == 'v' ==> "v" + r == v
    ensures !(v != [] && v[0] == 'v') ==> r == v
  {
    if |v| > 0 && v[0] == 'v' then v[1..] else v
  }

  /** Stripping removes exactly one `v`, whatever follows it. */
  lemma StripsExactlyOne(x: string)
    ensures StripLeadingV("v" + x) == x
  {
  }

  /** `update_version(package)`: no change when the old version equals the
      stripped new one; otherwise every line has each occurrence of the old
      version replaced. */
  function UpdateVersion(lines: seq<string>, oldVersion: string, newVersion: Option<string>): (r: Result<FileEdit, UpdateError>)
    ensures r.Failure? <==> newVersion.None?
    ensures r.Success? ==> (r.value.Untouched? <==> oldVersion == StripLeadingV(newVersion.value))
    ensures r.Success? && r.value.Rewritten? ==> |r.value.lines| == |lines|
  {
    match newVersion
    case None => Failure(NewVersionMissing)
    case Some(nv) =>
      var v := StripLeadingV(nv);
      if oldVersion != v then
        Success(Rewritten(seq(|lines|, i requires 0 <= i < |lines| => Replace(lines[i], oldVersion, v))))
      else
        Success(Untouched)
  }

  /** Skipping the rewrite loses nothing: had the file been rewritten with
      the equal versions, every line would have stayed the same. */
  lemma GuardSkipsOnlyNoOp(lines: seq<string>, oldVersion: string, newVersion: string)
    requires UpdateVersion(lines, oldVersion, Some(newVersion)) == Success(Untouched)
    ensures forall i :: 0 <= i < |lines| ==> Replace(lines[i], oldVersion, StripLeadingV(newVersion)) == lines[i]
  {
    forall i | 0 <= i < |lines|
      ensures Replace(lines[i], oldVersion, StripLeadingV(newVersion)) == lines[i]
    {
      ReplaceByItself(lines[i], oldVersion);
    }
  }

  /** A rewritten line is cut at the occurrences of the old version and
      glued back with the new one: the text between occurrences is kept, and
      none of it contains the old version. */
  lemma RewrittenLine(lines: seq<string>, oldVersion: string, newVersion: string, i: nat)
    requires oldVersion != [] && i < |lines|
    requires UpdateVersion(lines, oldVersion, Some(newVersion)).value.Rewritten?
    ensures var pieces := Split(lines[i], oldVersion);
      && Join(pieces, oldVersion) == lines[i]
      && UpdateVersion(lines, oldVersion, Some(newVersion)).value.lines[i] == Join(pieces, StripLeadingV(newVersion))
      && forall k :: 0 <= k < |pieces| ==> !Contains(pieces[k], oldVersion)
  {
    JoinSplit(lines[i], oldVersion);
    ReplaceIsJoinOfSplit(lines[i], oldVersion, StripLeadingV(newVersion));
    SplitPiecesAvoidSep(lines[i], oldVersion);
  }

  /** A line that does not mention the old version is written back as it was. */
  lemma LineWithoutVersionKept(lines: seq<string>, oldVersion: string, newVersion: string, i: nat)
    requires oldVersion != [] && i < |lines| && !Contains(lines[i], oldVersion)
    requires UpdateVersion(lines, oldVersion, Some(newVersion)).value.Rewritten?
    ensures UpdateVersion(lines, oldVersion, Some(newVersion)).value.lines[i] == lines[i]
  {
    ReplaceWithoutOccurrence(lines[i], oldVersion, StripLeadingV(newVersion));
  }

  /** With an empty old version Python's `replace` matches everywhere: the
      new version is written before, between and after all characters of
      every line. */
  lemma EmptyOldVersionInterleaves(lines: seq<string>, newVersion: string, i: nat)
    requires StripLeadingV(newVersion) != [] && i < |lines| && lines[i] != []
    ensures var v := StripLeadingV(newVersion);
      UpdateVersion(lines, [], Some(newVersion)) == Success(Rewritten(UpdateVersion(lines, [], Some(newVersion)).value.lines))
      && UpdateVersion(lines, [], Some(newVersion)).value.lines[i] == v + Join(Chars(lines[i]), v) + v
  {
    InterleaveIsFramedJoin(lines[i], StripLeadingV(newVersion));
  }

  // ---- to_sri ----

  datatype HashAlgo = Md5 | Sha1 | Sha256 | Sha512

  /** The algorithm `to_sri` assumes for a hash of `n` characters. */
  function AlgoForLength(n: nat): Option<HashAlgo> {
    if n == 32 then Some(Md5)
    else if n == 40 then Some(Sha1)
    else if n == 64 || n == 52 then Some(Sha256)
    else if n == 103 || n == 128 then Some(Sha512)
    else None
  }

  function Prefix(a: HashAlgo): string {
    match a
    case Md5 => "md5:"
    case Sha1 => "sha1:"
    case Sha256 => "sha256:"
    case Sha512 => "sha512:"
  }

  /** The digest size of each algorithm, in bytes. */
  function DigestBytes(a: HashAlgo): nat {
    match a
    case Md5 => 16
    case Sha1 => 20
    case Sha256 => 32
    case Sha512 => 64
  }

  /** Characters of the hexadecimal and of Nix's base-32 rendering of a digest. */
  function HexLength(a: HashAlgo): nat {
    2 * DigestBytes(a)
  }

  function Base32Length(a: HashAlgo): nat {
    (DigestBytes(a) * 8 - 1) / 5 + 1
  }

  /** The length table recognises the hexadecimal form of every algorithm
      and the base-32 form of SHA-256 and SHA-512; a base-32 SHA-1 hash is
      as long as a hexadecimal MD5 one and is read as MD5, and a base-32 MD5
      hash is not recognised. */
  lemma LengthTableMatchesDigests(a: HashAlgo)
    ensures AlgoForLength(HexLength(a)) == Some(a)
    ensures (a == Sha256 || a == Sha512) ==> AlgoForLength(Base32Length(a)) == Some(a)
    ensures a == Sha1 ==> AlgoForLength(Base32Length(a)) == Some(Md5)
    ensures a == Md5 ==> AlgoForLength(Base32Length(a)) == None
  {
  }

  /** Every length the table knows is the hexadecimal or base-32 length of
      the algorithm it picks. 32, also the base-32 length of SHA-1, is read
      as hexadecimal MD5. */
  lemma KnownLengthsAreDigestLengths(n: nat)
    requires AlgoForLength(n).Some?
    ensures var a := AlgoForLength(n).value;
      n == HexLength(a) || n == Base32Length(a)
  {
  }

  /** `to_sri(hashstr)`, with `nix` giving the output of
      `nix --experimental-features nix-command to-sri <arg>`. */
  function ToSri(h: string, nix: string -> string): (r: string)
    ensures '-' in h ==> r == h
    ensures '-' !in h && AlgoForLength(|h|).None? ==> r == h
    ensures '-' !in h && AlgoForLength(|h|).Some? ==>
      var out := nix(Prefix(AlgoForLength(|h|).value) + h);
      && |r| <= |out| && r == out[..|r|]
      && (forall k :: |r| <= k < |out| ==> out[k] == '\n')
      && (r == [] || r[|r| - 1] != '\n')
  {
    if '-' in h then h
    else match AlgoForLength(|h|)
      case None => h
      case Some(a) => StripNewlines(nix(Prefix(a) + h))
  }

  /** Only a dash-free hash of a known length reaches `nix`, and it is
      asked with the algorithm's prefix; no other hash depends on `nix`. */
  lemma ToSriCallsNixOnlyForKnownLengths(h: string, nix1: string -> string, nix2: string -> string)
    requires '-' in h || AlgoForLength(|h|).None? || nix1(Prefix(AlgoForLength(|h|).value) + h) == nix2(Prefix(AlgoForLength(|h|).value) + h)
    ensures ToSri(h, nix1) == ToSri(h, nix2)
  {
  }

  /** When `nix to-sri` answers in SRI form (with a dash), normalising twice
      is normalising once. */
  lemma ToSriIdempotent(h: string, nix: string -> string)
    requires forall x :: '-' in nix(x)
    ensures ToSri(ToSri(h, nix), nix) == ToSri(h, nix)
  {
    if '-' !in h && AlgoForLength(|h|).Some? {
      var out := nix(Prefix(AlgoForLength(|h|).value) + h);
      assert '-' in out;
      DashSurvivesStrip(out);
    }
  }

  lemma DashSurvivesStrip(s: string)
    requires '-' in s
    ensures '-' in StripNewlines(s)
  {
    var k :| 0 <= k < |s| && s[k] == '-';
    assert k < |StripNewlines(s)|;
    assert StripNewlines(s)[k] == '-';
  }

  // ---- replace_hash ----

  /** `re.sub(pattern, replacement, line)`; the regular-expression engine
      is not part of this model. */
  type Substitution = (string, string, string) -> string

  /** `replace_hash(filename, current, target)`: when the normalised hashes
      differ, every line gets the current hash substituted by the
      normalised target. */
  function ReplaceHash(lines: seq<string>, current: string, target: string, nix: string -> string, sub: Substitution): (r: FileEdit)
    ensures r.Untouched? <==> ToSri(current, nix) == ToSri(target, nix)
    ensures r.Rewritten? ==> |r.lines| == |lines|
  {
    var normalized := ToSri(target, nix);
    if ToSri(current, nix) != normalized then
      Rewritten(seq(|lines|, i requires 0 <= i < |lines| => sub(current, normalized, lines[i])))
    else
      Untouched
  }

  /** An SRI target is written as given; a current hash in another form of
      the same SRI value leaves the file alone. */
  lemma SriTargetWrittenVerbatim(lines: seq<string>, current: string, target: string, nix: string -> string, sub: Substitution)
    requires '-' in target
    ensures ToSri(current, nix) == target ==> ReplaceHash(lines, current, target, nix, sub) == Untouched
    ensures ToSri(current, nix) != target ==>
      ReplaceHash(lines, current, target, nix, sub)
        == Rewritten(seq(|lines|, i requires 0 <= i < |lines| => sub(current, target, lines[i])))
  {
  }

  /** Replacing a hash by itself never rewrites the file. */
  lemma SameHashUntouched(lines: seq<string>, h: string, nix: string -> string, sub: Substitution)
    ensures ReplaceHash(lines, h, h, nix, sub) == Untouched
  {
  }
}
