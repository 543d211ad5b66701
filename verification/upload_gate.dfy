/**
  The CAFF upload gate of the file controller: the decision logic of
  `VerifyAndUploadCaffFileAsync` (extension allow-list, magic bytes at offset
  9, size range, derived storage paths), the paths `DeleteConfirmed` removes,
  and `GetContentType`. The checks do not short-circuit: for a ".caff" name
  both remaining checks run and the last failing one sets the reported
  failure; any other extension makes the signature lookup throw first. The random file name is a
  parameter; file writes and the decode call on a fixed file are not modelled.
 */
module UploadGate {
  import opened Bytes
  import opened Results

  /** `permittedExtensions`. */
  const PermittedExtensions: seq<string> := [".caff"]

  /** `_fileSignature`: one expected byte sequence per extension. */
  const FileSignatures: map<string, seq<seq<byte>>> := map[".caff" := [CaffMagic]]

  /** `fileSizeLimit`: 20000 KiB. */
  const FileSizeLimit: nat := 20000 * 1024

  /** The signature window starts after this many unchecked bytes. */
  const SignatureOffset: nat := 9

  const UploadsDirectory: string := "\\Uploads\\"
  const CaffDirectory: string := UploadsDirectory + "CAFF" + "\\"
  const ImageDirectory: string := "\\images\\uploads\\"
  const WebRoot: string := "\\wwwroot"

  /** `GetMimeTypes()`. */
  const MimeTypes: map<string, string> := map[".caff" := "text/plain"]

  /** Exceptions the modelled code can raise. */
  datatype Fault = KeyNotFound  // a dictionary indexed with a key it does not hold

  // ---------------------------------------------------------------------
  // File names (`System.IO.Path` on Windows, `ToLowerInvariant`)
  // ---------------------------------------------------------------------

  predicate IsDirectorySeparator(c: char)
  {
    c == '\\' || c == '/'
  }

  /** Position `k` holds the last segment's last '.', and at least one character follows it. */
  predicate ExtensionDot(path: string, k: int)
  {
    && 0 <= k < |path| - 1
    && path[k] == '.'
    && forall j :: k < j < |path| ==> path[j] != '.' && !IsDirectorySeparator(path[j])
  }

  /** `Path.GetExtension` scanning backwards from position `i`: stops at the first '.' or separator. */
  function ExtensionBefore(path: string, i: nat): (ext: string)
    requires i <= |path|
    requires forall j :: i <= j < |path| ==> path[j] != '.' && !IsDirectorySeparator(path[j])
    ensures ext != [] ==> |ext| <= |path| && ExtensionDot(path, |path| - |ext|) && ext == path[|path| - |ext|..]
    ensures forall k :: 0 <= k < i && ExtensionDot(path, k) ==> ext == path[k..]
  {
    if i == 0 then ""
    else if path[i - 1] == '.' then (if i == |path| then "" else path[i - 1..])
    else if IsDirectorySeparator(path[i - 1]) then ""
    else ExtensionBefore(path, i - 1)
  }

  /**
    `Path.GetExtension`: the last segment's text from its last '.' on, or empty
    when that segment has no '.' or ends with it.
   */
  function GetExtension(path: string): (ext: string)
    ensures ext != [] ==> |ext| <= |path| && ExtensionDot(path, |path| - |ext|) && ext == path[|path| - |ext|..]
    ensures forall k :: ExtensionDot(path, k) ==> ext == path[k..]
  {
    ExtensionBefore(path, |path|)
  }

  function ToLowerChar(c: char): char
  {
    if 'A' <= c <= 'Z' then (c as int + 32) as char else c
  }

  /** `ToLowerInvariant` on ASCII letters; every other character is kept. */
  function ToLowerInvariant(s: string): (t: string)
    ensures |t| == |s|
  {
    seq(|s|, i requires 0 <= i < |s| => ToLowerChar(s[i]))
  }

  /** The lower-cased extension the controller looks up. */
  function LowerExtension(fileName: string): string
  {
    ToLowerInvariant(GetExtension(fileName))
  }

  /** The name ends in ".caff" in any letter case. */
  predicate EndsWithCaff(name: string)
  {
    && |name| >= 5
    && name[|name| - 5] == '.'
    && ToLowerInvariant(name[|name| - 4..]) == "caff"
  }

  /** The lower-cased extension is ".caff" exactly when the name ends in ".caff", in any case. */
  lemma LowerExtensionIsCaff(name: string)
    ensures LowerExtension(name) == ".caff" <==> EndsWithCaff(name)
  {
    if LowerExtension(name) == ".caff" {
      var ext := GetExtension(name);
      assert |ext| == 5;
      assert ext == [ext[0]] + name[|name| - 4..];
      LowerCons(ext[0], name[|name| - 4..]);
      assert ToLowerChar(ext[0]) == '.';
      assert ToLowerInvariant(ext)[1..] == ToLowerInvariant(name[|name| - 4..]);
      assert ".caff"[1..] == "caff";
      assert EndsWithCaff(name);
    }
    if EndsWithCaff(name) {
      ExtensionOfCaffName(name);
      assert name[|name| - 5..] == ['.'] + name[|name| - 4..];
      LowerCons('.', name[|name| - 4..]);
      assert LowerExtension(name) == ".caff";
    }
  }

  lemma LowerCons(c: char, t: string)
    ensures ToLowerInvariant([c] + t) == [ToLowerChar(c)] + ToLowerInvariant(t)
  {
  }

  lemma ExtensionOfCaffName(name: string)
    requires EndsWithCaff(name)
    ensures GetExtension(name) == name[|name| - 5..]
  {
    var n := |name|;
    forall j | n - 4 <= j < n
      ensures name[j] != '.' && !IsDirectorySeparator(name[j])
    {
      assert ToLowerChar(name[j]) == ToLowerInvariant(name[n - 4..])[j - (n - 4)];
    }
    assert ExtensionBefore(name, n - 4) == name[n - 5..];
    ExtensionStep(name, n);
    ExtensionStep(name, n - 1);
    ExtensionStep(name, n - 2);
    ExtensionStep(name, n - 3);
  }

  /** Scanning back over a character that is neither '.' nor a separator changes nothing. */
  lemma ExtensionStep(path: string, i: nat)
    requires 0 < i <= |path|
    requires forall j :: i - 1 <= j < |path| ==> path[j] != '.' && !IsDirectorySeparator(path[j])
    ensures ExtensionBefore(path, i) == ExtensionBefore(path, i - 1)
  {
  }

  /** The extension check of line 125: non-empty and on the allow-list. */
  predicate ExtensionAllowed(fileName: string)
  {
    var ext := LowerExtension(fileName);
    ext != "" && ext in PermittedExtensions
  }

  // ---------------------------------------------------------------------
  // Magic bytes
  // ---------------------------------------------------------------------

  /**
    `headerBytes` after the copy loop: slot j holds stream byte 9 + j when the
    read returned that many bytes, and stays 0 otherwise.
   */
  function HeaderWindow(content: seq<byte>, size: nat): (w: seq<byte>)
    ensures |w| == size
  {
    seq(size, j requires 0 <= j < size =>
      if SignatureOffset + j < |content| then content[SignatureOffset + j] else 0)
  }

  /**
    Lines 136-144: read `size + 9` bytes, then copy every byte past index 8
    into a zero-filled array of `size` slots.
   */
  method ReadHeaderWindow(content: seq<byte>, size: nat) returns (window: seq<byte>)
    ensures window == HeaderWindow(content, size)
  {
    var want := size + SignatureOffset;
    var all := if |content| <= want then content else content[..want];
    window := seq(size, _ => 0);
    var i := 0;
    while i < |all|
      invariant 0 <= i <= |all|
      invariant |window| == size
      invariant forall j :: 0 <= j < size ==>
        window[j] == if SignatureOffset + j < i then content[SignatureOffset + j] else 0
    {
      if i > 8 {
        window := window[i - SignatureOffset := all[i]];
      }
      i := i + 1;
    }
  }

  /** LINQ `Take(k)`. */
  function Take<T>(s: seq<T>, k: nat): (t: seq<T>)
    ensures |t| == if k < |s| then k else |s|
  {
    if k < |s| then s[..k] else s
  }

  /** `signatures.Any(signature => headerBytes.Take(signature.Length + 9).SequenceEqual(signature))`. */
  predicate AnySignatureMatches(window: seq<byte>, signatures: seq<seq<byte>>)
  {
    exists i :: 0 <= i < |signatures| && Take(window, |signatures[i]| + SignatureOffset) == signatures[i]
  }

  /** The magic-bytes check for the signatures of `ext`, as the controller runs it. */
  predicate SignatureCheck(content: seq<byte>, signatures: seq<seq<byte>>)
    requires |signatures| > 0
  {
    AnySignatureMatches(HeaderWindow(content, |signatures[0]|), signatures)
  }

  /** What the magic-bytes check amounts to: bytes 9..12 spell "CAFF". */
  predicate HasCaffSignature(content: seq<byte>)
  {
    |content| >= SignatureOffset + 4 && content[SignatureOffset .. SignatureOffset + 4] == CaffMagic
  }

  /**
    The check passes exactly when bytes 9..12 are "CAFF", whatever bytes 0..8
    hold; a stream shorter than 13 bytes leaves zero slots that never match.
   */
  lemma SignatureCheckIsCaffMagic(content: seq<byte>)
    ensures SignatureCheck(content, FileSignatures[".caff"]) <==> HasCaffSignature(content)
  {
    var window := HeaderWindow(content, 4);
    assert Take(window, 4 + SignatureOffset) == window;
    if HasCaffSignature(content) {
      assert window == CaffMagic;
    }
    if window == CaffMagic {
      assert window[3] != 0;
      assert content[SignatureOffset .. SignatureOffset + 4] == CaffMagic;
    }
  }

  // ---------------------------------------------------------------------
  // Size check and stored paths
  // ---------------------------------------------------------------------

  /** Line 157: a non-empty upload of at most 20000 KiB. */
  predicate SizeAllowed(length: int)
  {
    0 < length <= FileSizeLimit
  }

  /** The 32 characters `Path.GetRandomFileName` draws from: "abcdefghijklmnopqrstuvwxyz012345". */
  predicate RandomChar(c: char)
  {
    ('a' <= c <= 'z') || ('0' <= c <= '5')
  }

  /** A name as `Path.GetRandomFileName` makes it: 8 + '.' + 3 characters from the 32-letter alphabet. */
  predicate IsRandomFileName(name: string)
  {
    && |name| == 12
    && name[8] == '.'
    && forall i :: 0 <= i < |name| && i != 8 ==> RandomChar(name[i])
  }

  /** `random.Split(".")[0]`: the text before the first '.'. */
  function Stem(name: string): (stem: string)
    ensures |stem| <= |name| && stem == name[..|stem|]
    ensures '.' !in stem
    ensures |stem| < |name| ==> name[|stem|] == '.'
  {
    if |name| == 0 || name[0] == '.' then "" else [name[0]] + Stem(name[1..])
  }

  predicate IsPathRooted(path: string)
  {
    (|path| >= 1 && IsDirectorySeparator(path[0])) ||
    (|path| >= 2 && path[1] == ':' && ('A' <= path[0] <= 'Z' || 'a' <= path[0] <= 'z'))
  }

  /** `Path.Combine` of two paths on Windows. */
  function Combine(first: string, second: string): string
  {
    if |second| == 0 then first
    else if |first| == 0 then second
    else if IsPathRooted(second) then second
    else if IsDirectorySeparator(first[|first| - 1]) || IsDirectorySeparator(second[0]) then first + second
    else first + "\\" + second
  }

  /** Lines 162-171: the stored CAFF path and the image path, both from the stem of one random name. */
  function UploadPaths(randomName: string): seq<string>
  {
    var stem := Stem(randomName);
    [Combine(CaffDirectory, stem + ".caff"), ImageDirectory + stem + ".png"]
  }

  /** A random stem is a plain relative name: combining it under the CAFF directory concatenates. */
  lemma CombineRandomStem(name: string)
    requires IsRandomFileName(name)
    ensures Combine(CaffDirectory, Stem(name) + ".caff") == CaffDirectory + name[..8] + ".caff"
  {
    RandomStem(name);
    var second := Stem(name) + ".caff";
    assert second[0] == name[0] && second[1] == name[1];
    assert RandomChar(name[0]) && RandomChar(name[1]);
    assert !IsPathRooted(second);
  }

  lemma RandomStem(name: string)
    requires IsRandomFileName(name)
    ensures Stem(name) == name[..8]
    ensures forall i :: 0 <= i < 8 ==> RandomChar(Stem(name)[i])
  {
    var stem := Stem(name);
    assert name[8] !in stem;
  }

  // ---------------------------------------------------------------------
  // The gate
  // ---------------------------------------------------------------------

  datatype Upload = Upload(fileName: string, content: seq<byte>)

  /** The three `ViewBag.Failure` messages: extension, magic numbers, file size. */
  datatype Failure = ExtensionFailure | SignatureFailure | SizeFailure

  /** What `VerifyAndUploadCaffFileAsync` returns, with the failure it leaves in `ViewBag`, or the exception it raises. */
  datatype GateOutcome =
    | Returned(paths: seq<string>, failure: Option<Failure>)
    | Threw(fault: Fault)

  function VerifyAndUpload(upload: Upload, randomName: string): (r: GateOutcome)
    requires IsRandomFileName(randomName)
    ensures r.Threw? <==> LowerExtension(upload.fileName) != ".caff"
    ensures r.Returned? ==> (r.paths != [] <==> HasCaffSignature(upload.content) && SizeAllowed(|upload.content|))
    ensures r.Returned? && r.paths != [] ==>
      r.paths == [CaffDirectory + randomName[..8] + ".caff", ImageDirectory + randomName[..8] + ".png"]
    ensures r.Returned? ==>
      r.failure == (if !SizeAllowed(|upload.content|) then Some(SizeFailure)
                    else if !HasCaffSignature(upload.content) then Some(SignatureFailure)
                    else None)
  {
    var ext := LowerExtension(upload.fileName);
    var extensionOk := ext != "" && ext in PermittedExtensions;
    var failure := if extensionOk then None else Some(ExtensionFailure);
    if ext !in FileSignatures then Threw(KeyNotFound)
    else
      var signatures := FileSignatures[ext];
      var signatureOk := SignatureCheck(upload.content, signatures);
      SignatureCheckIsCaffMagic(upload.content);
      var failure := if signatureOk then failure else Some(SignatureFailure);
      if SizeAllowed(|upload.content|) then
        if extensionOk && signatureOk then
          CombineRandomStem(randomName);
          Returned(UploadPaths(randomName), failure)
        else Returned([], failure)
      else Returned([], Some(SizeFailure))
  }

  // ---------------------------------------------------------------------
  // Deletion paths and content type
  // ---------------------------------------------------------------------

  /** A stored record's `Path` (the CAFF file) and `ImagePath` (the PNG). */
  datatype StoredAsset = StoredAsset(path: string, imagePath: string)

  /** `String.Replace(pattern, replacement)`: ordinal, left to right, non-overlapping. */
  function Replace(s: string, pattern: string, replacement: string): string
    requires |pattern| > 0
    decreases |s|
  {
    if |s| < |pattern| then s
    else if s[..|pattern|] == pattern then replacement + Replace(s[|pattern|..], pattern, replacement)
    else [s[0]] + Replace(s[1..], pattern, replacement)
  }

  /** Lines 282-287: the image under the web root, the CAFF file, and its path with "CAFF" made "CIFF". */
  function DeletionTargets(root: string, asset: StoredAsset): seq<string>
  {
    [root + WebRoot + asset.imagePath, root + asset.path, root + Replace(asset.path, "CAFF", "CIFF")]
  }

  /** `GetContentType`: the MIME type of the lower-cased extension; other extensions have none. */
  function GetContentType(path: string): Result<string, Fault>
  {
    var ext := LowerExtension(path);
    if ext in MimeTypes then Ok(MimeTypes[ext]) else Err(KeyNotFound)
  }

  /** The characters 'C', 'A', 'F', 'F' start at position `i` of `s`. */
  predicate CaffAt(s: string, i: int)
  {
    0 <= i && i + 4 <= |s| && s[i] == 'C' && s[i + 1] == 'A' && s[i + 2] == 'F' && s[i + 3] == 'F'
  }

  /**
    Replacing "CAFF" by "CIFF" keeps the length and changes characters only
    from 'A' to 'I'; every other character, the lower-case ".caff" included,
    stays where it was.
   */
  lemma {:induction false} CaffToCiffPointwise(s: string)
    ensures |Replace(s, "CAFF", "CIFF")| == |s|
    ensures forall i :: 0 <= i < |s| ==>
      var r := Replace(s, "CAFF", "CIFF");
      r[i] == s[i] || (s[i] == 'A' && r[i] == 'I')
    decreases |s|
  {
    var r := Replace(s, "CAFF", "CIFF");
    if |s| >= 4 {
      if s[..4] == "CAFF" {
        CaffToCiffPointwise(s[4..]);
        assert r == "CIFF" + Replace(s[4..], "CAFF", "CIFF");
        forall i | 0 <= i < |s|
          ensures r[i] == s[i] || (s[i] == 'A' && r[i] == 'I')
        {
          if i < 4 {
            assert s[i] == s[..4][i];
          } else {
            assert s[i] == s[4..][i - 4];
          }
        }
      } else {
        CaffToCiffPointwise(s[1..]);
        assert r == [s[0]] + Replace(s[1..], "CAFF", "CIFF");
        forall i | 1 <= i < |s|
          ensures r[i] == s[i] || (s[i] == 'A' && r[i] == 'I')
        {
          assert s[i] == s[1..][i - 1];
        }
      }
    }
  }

  /** After the replacement no "CAFF" is left: a new one can neither straddle a "CIFF" nor survive the scan. */
  lemma {:induction false} CaffToCiffLeavesNoCaff(s: string)
    ensures forall i :: !CaffAt(Replace(s, "CAFF", "CIFF"), i)
    decreases |s|
  {
    var r := Replace(s, "CAFF", "CIFF");
    if |s| >= 4 {
      if s[..4] == "CAFF" {
        var rest := Replace(s[4..], "CAFF", "CIFF");
        CaffToCiffLeavesNoCaff(s[4..]);
        assert r == "CIFF" + rest;
        forall i | 4 <= i
          ensures !CaffAt(r, i)
        {
          assert !CaffAt(rest, i - 4);
        }
      } else {
        var rest := Replace(s[1..], "CAFF", "CIFF");
        CaffToCiffLeavesNoCaff(s[1..]);
        CaffToCiffPointwise(s[1..]);
        assert r == [s[0]] + rest;
        forall i | 1 <= i
          ensures !CaffAt(r, i)
        {
          assert !CaffAt(rest, i - 1);
        }
        assert !CaffAt(r, 0) by {
          assert r[1] == rest[0] && r[2] == rest[1] && r[3] == rest[2];
          assert s[1..][0] == s[1] && s[1..][1] == s[2] && s[1..][2] == s[3];
          assert s[..4] == [s[0], s[1], s[2], s[3]];
        }
      }
    }
  }

  /** A first character other than 'C' cannot start "CAFF": it is kept and the rest is searched. */
  lemma ReplaceKeepsHead(t: string)
    requires |t| > 0 && t[0] != 'C'
    ensures Replace(t, "CAFF", "CIFF") == [t[0]] + Replace(t[1..], "CAFF", "CIFF")
  {
    if |t| >= 4 {
      assert t[..4][0] == t[0];
    } else {
      assert t == [t[0]] + t[1..];
    }
  }

  /** A prefix without 'C' passes through the replacement untouched. */
  lemma {:induction false} ReplaceSkipsPrefix(prefix: string, s: string)
    requires 'C' !in prefix
    ensures Replace(prefix + s, "CAFF", "CIFF") == prefix + Replace(s, "CAFF", "CIFF")
    decreases |prefix|
  {
    if |prefix| > 0 {
      var t := prefix + s;
      assert t[0] == prefix[0];
      assert t[1..] == prefix[1..] + s;
      ReplaceKeepsHead(t);
      ReplaceSkipsPrefix(prefix[1..], s);
      assert prefix == [prefix[0]] + prefix[1..];
    } else {
      assert prefix + s == s;
    }
  }

  /** Where the deletion-time "CIFF" path of an upload points. */
  const CiffDirectory: string := UploadsDirectory + "CIFF" + "\\"

  /**
    At deletion the paths of an upload are the image under the web root, the
    CAFF file, and a sibling under the "CIFF" directory that keeps the ".caff"
    extension.
   */
  lemma DeletionOfUpload(root: string, randomName: string)
    requires IsRandomFileName(randomName)
    ensures var paths := UploadPaths(randomName);
      var stem := randomName[..8];
      DeletionTargets(root, StoredAsset(paths[0], paths[1])) ==
        [ root + WebRoot + ImageDirectory + stem + ".png",
          root + CaffDirectory + stem + ".caff",
          root + CiffDirectory + stem + ".caff" ]
  {
    var stem := randomName[..8];
    UploadPathsOfRandomName(randomName);
    RandomStemHasNoC(randomName);
    CiffPathOfCaffPath(stem);
    var caff := CaffDirectory + stem + ".caff";
    var image := ImageDirectory + stem + ".png";
    assert root + WebRoot + image == root + WebRoot + ImageDirectory + stem + ".png";
    assert root + caff == root + CaffDirectory + stem + ".caff";
    assert root + CiffDirectory + stem + ".caff" == root + (CiffDirectory + stem + ".caff");
  }

  /** The two stored paths of an upload, written out. */
  lemma UploadPathsOfRandomName(randomName: string)
    requires IsRandomFileName(randomName)
    ensures UploadPaths(randomName) == [CaffDirectory + randomName[..8] + ".caff", ImageDirectory + randomName[..8] + ".png"]
  {
    CombineRandomStem(randomName);
    RandomStem(randomName);
  }

  /** The random alphabet has no upper-case letters, so no 'C'. */
  lemma RandomStemHasNoC(randomName: string)
    requires IsRandomFileName(randomName)
    ensures 'C' !in randomName[..8]
  {
    RandomStem(randomName);
    var stem := randomName[..8];
    forall i | 0 <= i < 8
      ensures stem[i] != 'C'
    {
      assert RandomChar(stem[i]);
    }
  }

  /** The "CAFF" of the directory becomes "CIFF"; a stem without 'C' and the ".caff" extension are kept. */
  lemma CiffPathOfCaffPath(stem: string)
    requires 'C' !in stem
    ensures Replace(CaffDirectory + stem + ".caff", "CAFF", "CIFF") == CiffDirectory + stem + ".caff"
  {
    var tail := "\\" + stem + ".caff";
    assert 'C' !in tail by {
      assert 'C' !in "\\" && 'C' !in ".caff";
    }
    assert CaffDirectory + stem + ".caff" == UploadsDirectory + "CAFF" + tail;
    assert CiffDirectory + stem + ".caff" == UploadsDirectory + "CIFF" + tail;
    ReplaceOnce(UploadsDirectory, tail);
  }

  /** One "CAFF" between two stretches without 'C' is the only occurrence replaced. */
  lemma ReplaceOnce(front: string, tail: string)
    requires 'C' !in front && 'C' !in tail
    ensures Replace(front + "CAFF" + tail, "CAFF", "CIFF") == front + "CIFF" + tail
  {
    var rest := "CAFF" + tail;
    assert front + "CAFF" + tail == front + rest;
    ReplaceSkipsPrefix(front, rest);
    assert rest[..4] == "CAFF" && rest[4..] == tail;
    ReplaceSkipsPrefix(tail, "");
    assert tail + "" == tail;
  }

  /** `GetContentType` has a MIME type exactly for the names the gate does not throw on. */
  lemma ContentTypeMatchesGate(upload: Upload, randomName: string)
    requires IsRandomFileName(randomName)
    ensures GetContentType(upload.fileName).Ok? <==> !VerifyAndUpload(upload, randomName).Threw?
    ensures GetContentType(upload.fileName).Ok? ==> GetContentType(upload.fileName).value == "text/plain"
  {
  }

  /** A file stored by the gate is downloaded as "text/plain". */
  lemma StoredFileContentType(root: string, randomName: string)
    requires IsRandomFileName(randomName)
    ensures GetContentType(root + UploadPaths(randomName)[0]) == Ok("text/plain")
  {
    UploadPathsOfRandomName(randomName);
    var prefix := root + CaffDirectory + randomName[..8];
    assert root + UploadPaths(randomName)[0] == prefix + ".caff";
    CaffSuffix(prefix);
    LowerExtensionIsCaff(prefix + ".caff");
  }

  /** Appending ".caff" makes a name that ends in ".caff". */
  lemma CaffSuffix(prefix: string)
    ensures EndsWithCaff(prefix + ".caff")
  {
    var path := prefix + ".caff";
    var n := |path|;
    assert path[n - 5] == '.';
    assert path[n - 4..] == "caff" by {
      forall j | 0 <= j < 4
        ensures path[n - 4..][j] == "caff"[j]
      {
        assert path[n - 4 + j] == ".caff"[j + 1];
      }
    }
    assert ToLowerInvariant("caff") == "caff";
  }
}
