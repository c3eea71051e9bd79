/**
 * The file-name helpers the indexer relies on: Node's path.extname and path.parse(..).name
 * applied to one directory-entry name, path.join of a directory and an entry name,
 * String.prototype.toLowerCase, and the video-extension test isVideoFile.
 *
 * Entry names returned by readdir never contain '/', so every function here works on a
 * single path segment.
 */
module Paths {
  import opened Wrappers

  /** The extensions isVideoFile accepts, in the order the source lists them. */
  const VideoExtensions: seq<string> := [".mp4", ".mkv", ".avi", ".mov", ".wmv"]

  /** toLowerCase on one character, restricted to ASCII letters. */
  function LowerChar(c: char): char
  {
    if 'A' <= c <= 'Z' then (c as int + 32) as char else c
  }

  /** toLowerCase on a string (ASCII case mapping, one character for one). */
  function ToLower(s: string): string
  {
    seq(|s|, i requires 0 <= i < |s| => LowerChar(s[i]))
  }

  /** Lower-casing twice is lower-casing once. */
  lemma ToLowerIdempotent(s: string)
    ensures ToLower(ToLower(s)) == ToLower(s)
  {
    assert forall i :: 0 <= i < |s| ==> LowerChar(LowerChar(s[i])) == LowerChar(s[i]);
  }

  /** Lower-casing commutes with taking a suffix. */
  lemma ToLowerSuffix(s: string, k: nat)
    requires k <= |s|
    ensures ToLower(s)[k..] == ToLower(s[k..])
  {
  }

  /** The index of the last '.' in a name, if any. */
  function LastDot(f: string): (r: Option<nat>)
    ensures r.Some? ==> r.value < |f| && f[r.value] == '.'
    decreases |f|
  {
    if f == [] then None
    else if f[|f| - 1] == '.' then Some(|f| - 1)
    else LastDot(f[..|f| - 1])
  }

  /** LastDot finds a '.' exactly when there is one, and no '.' follows the one it finds. */
  lemma {:induction false} LastDotFinds(f: string)
    ensures LastDot(f).None? <==> forall i :: 0 <= i < |f| ==> f[i] != '.'
    ensures LastDot(f).Some? ==> f[LastDot(f).value] == '.'
    ensures LastDot(f).Some? ==> forall i :: LastDot(f).value < i < |f| ==> f[i] != '.'
    decreases |f|
  {
    if f != [] && f[|f| - 1] != '.' {
      var g := f[..|f| - 1];
      LastDotFinds(g);
      assert forall i :: 0 <= i < |g| ==> g[i] == f[i];
    }
  }

  /**
   * path.extname on an entry name: the text from the last '.' to the end, except that a
   * name whose only '.' is its first character (".bashrc", ".mp4"), a name without '.',
   * and the name ".." have no extension.
   */
  function ExtName(f: string): (r: string)
    ensures r != "" ==> 0 < |f| - |r| && r == f[|f| - |r|..] && r[0] == '.'
  {
    match LastDot(f)
    case None => ""
    case Some(d) => if d == 0 || f == ".." then "" else f[d..]
  }

  /**
   * An extension is a suffix of the name, shorter than it, that starts with its only '.';
   * there is none exactly for "..", and for names with no '.' after the first character.
   */
  lemma ExtNameShape(f: string)
    ensures var r := ExtName(f);
      && (r != "" ==> 0 < |f| - |r| && r == f[|f| - |r|..])
      && (r != "" ==> r[0] == '.' && forall i :: 1 <= i < |r| ==> r[i] != '.')
      && (r == "" <==> f == ".." || forall i :: 0 < i < |f| ==> f[i] != '.')
  {
    LastDotFinds(f);
  }

  /** path.parse(f).name: the entry name without its extension. */
  function Stem(f: string): string
  {
    f[..|f| - |ExtName(f)|]
  }

  /** The name is its stem followed by its extension. */
  lemma StemThenExtension(f: string)
    ensures Stem(f) + ExtName(f) == f
    ensures ExtName(f) == "" ==> Stem(f) == f
  {
    ExtNameShape(f);
  }

  /** path.join of a directory and a plain entry name (no normalisation is needed for those). */
  function Join(dir: string, name: string): string
  {
    dir + "/" + name
  }

  /** Within one directory, different entry names give different paths. */
  lemma JoinInjective(dir: string, a: string, b: string)
    requires Join(dir, a) == Join(dir, b)
    ensures a == b
  {
    assert a == Join(dir, a)[|dir| + 1..];
    assert b == Join(dir, b)[|dir| + 1..];
  }

  /** isVideoFile: the lower-cased extension is one of the five video extensions. */
  predicate IsVideoFile(f: string)
    ensures IsVideoFile(f) ==> |ExtName(f)| == 4 && |f| >= 5
  {
    ToLower(ExtName(f)) in VideoExtensions
  }

  /** Every video extension is a '.' followed by three characters none of which is a '.'. */
  lemma VideoExtensionShape(e: string)
    requires e in VideoExtensions
    ensures |e| == 4 && e[0] == '.' && e[1] != '.' && e[2] != '.' && e[3] != '.'
  {
  }

  /**
   * An independent reading of isVideoFile: the name is longer than the extension and its
   * last four characters, lower-cased, are one of the video extensions.
   */
  lemma {:induction false} IsVideoFileBySuffix(f: string)
    ensures IsVideoFile(f) <==> |f| >= 5 && ToLower(f[|f| - 4..]) in VideoExtensions
  {
    var e := ExtName(f);
    LastDotFinds(f);
    if IsVideoFile(f) {
      VideoExtensionShape(ToLower(e));
      assert f[|f| - 4..] == e;
    }
    if |f| >= 5 && ToLower(f[|f| - 4..]) in VideoExtensions {
      var t := f[|f| - 4..];
      VideoExtensionShape(ToLower(t));
      assert t[0] == '.' && t[1] != '.' && t[2] != '.' && t[3] != '.';
      assert f[|f| - 4] == '.';
      assert forall i :: |f| - 4 < i < |f| ==> f[i] != '.' by {
        forall i | |f| - 4 < i < |f| ensures f[i] != '.' {
          assert f[i] == t[i - (|f| - 4)];
        }
      }
      assert f != "..";
      assert e != "";
      assert e == t;
    }
  }

  /** A name that is only an extension, such as ".mp4", is not a video file. */
  lemma BareExtensionRejected(e: string)
    requires e in VideoExtensions
    ensures !IsVideoFile(e)
  {
    IsVideoFileBySuffix(e);
  }

  /** A name with no '.' after its first character is not a video file. */
  lemma NoExtensionRejected(f: string)
    requires forall i :: 0 < i < |f| ==> f[i] != '.'
    ensures !IsVideoFile(f)
  {
    ExtNameShape(f);
  }

  /** The test ignores case: "Film.MKV" is accepted exactly when "film.mkv" is. */
  lemma {:induction false} IsVideoFileIgnoresCase(f: string)
    ensures IsVideoFile(ToLower(f)) <==> IsVideoFile(f)
  {
    IsVideoFileBySuffix(f);
    var g := ToLower(f);
    IsVideoFileBySuffix(g);
    if |f| >= 5 {
      var t := f[|f| - 4..];
      ToLowerSuffix(f, |f| - 4);
      assert g[|g| - 4..] == ToLower(t);
      ToLowerIdempotent(t);
      assert ToLower(g[|g| - 4..]) == ToLower(t);
    }
  }

  /** The stem of a video file is the name with its last four characters removed. */
  lemma VideoStem(f: string)
    requires IsVideoFile(f)
    ensures |f| >= 5 && Stem(f) == f[..|f| - 4]
  {
    VideoExtensionShape(ToLower(ExtName(f)));
  }
}
