/** The part of .NET's `System.IO.Path` the file service relies on:
    `Path.GetExtension`, which scans a file name backwards from its end. */
module PathModel {
  import opened Wrappers

  /** Directory separators on the Unix host the service runs on, where both
      `DirectorySeparatorChar` and `AltDirectorySeparatorChar` are '/'. */
  predicate IsDirectorySeparator(c: char) {
    c == '/'
  }

  /** A character at which the backward scan of `GetExtension` stops. */
  predicate IsStop(c: char) {
    c == '.' || IsDirectorySeparator(c)
  }

  /** Declarative reading of an extension: the '.' at index `i` is not the
      last character, and nothing after it is another '.' or a separator.
      The extension is then `path[i..]`. */
  ghost predicate ExtensionAt(path: string, i: int) {
    && 0 <= i < |path| - 1
    && path[i] == '.'
    && forall k :: i < k < |path| ==> !IsStop(path[k])
  }

  /** The backward scan over `path[..n]`: the index of the last '.' or
      separator, if there is one. */
  function LastStop(path: string, n: nat): (r: Option<nat>)
    requires n <= |path|
    ensures r.Some? ==> r.value < n && IsStop(path[r.value])
    ensures r.Some? ==> forall k :: r.value < k < n ==> !IsStop(path[k])
    ensures r.None? ==> forall k :: 0 <= k < n ==> !IsStop(path[k])
    decreases n
  {
    if n == 0 then None
    else if IsStop(path[n - 1]) then Some(n - 1)
    else LastStop(path, n - 1)
  }

  /** `Path.GetExtension`: the suffix starting at the last '.' when that dot
      comes after the last separator and is not the final character;
      otherwise the empty string. */
  function GetExtension(path: string): (ext: string)
    ensures ext == "" || (ext[0] == '.' && |ext| >= 2)
    ensures ext != "" ==> ExtensionAt(path, |path| - |ext|) && ext == path[|path| - |ext|..]
    ensures forall i :: ExtensionAt(path, i) ==> ext == path[i..]
  {
    match LastStop(path, |path|)
    case None => ""
    case Some(i) => if path[i] == '.' && i != |path| - 1 then path[i..] else ""
  }

  /** A name has an extension exactly when some '.' qualifies as one. */
  lemma HasExtensionIff(path: string)
    ensures GetExtension(path) != "" <==> exists i :: ExtensionAt(path, i)
  {
    var ext := GetExtension(path);
    if ext != "" {
      assert ExtensionAt(path, |path| - |ext|);
    }
  }

  /** The extension never contains a separator or a second '.': it names
      the last component's suffix only. */
  lemma ExtensionShape(path: string)
    ensures var ext := GetExtension(path);
      forall k :: 0 < k < |ext| ==> !IsStop(ext[k])
  {
    var ext := GetExtension(path);
    if ext != "" {
      var i := |path| - |ext|;
      assert ExtensionAt(path, i);
      forall k | 0 < k < |ext|
        ensures !IsStop(ext[k])
      {
        assert ext[k] == path[i + k];
      }
    }
  }

  /** Renaming a file to `prefix + GetExtension(name)` keeps its extension,
      provided the prefix has no '.' or separator (a GUID has neither). */
  lemma {:induction false} ExtensionOfRenamed(prefix: string, name: string)
    requires forall k :: 0 <= k < |prefix| ==> !IsStop(prefix[k])
    ensures GetExtension(prefix + GetExtension(name)) == GetExtension(name)
  {
    var ext := GetExtension(name);
    var renamed := prefix + ext;
    if ext == "" {
      assert renamed == prefix;
      forall i | 0 <= i < |renamed|
        ensures !ExtensionAt(renamed, i)
      {
        assert !IsStop(renamed[i]);
      }
      HasExtensionIff(renamed);
    } else {
      ExtensionShape(name);
      assert ExtensionAt(renamed, |prefix|) by {
        forall k | |prefix| < k < |renamed|
          ensures !IsStop(renamed[k])
        {
          assert renamed[k] == ext[k - |prefix|];
        }
      }
      assert renamed[|prefix|..] == ext;
    }
  }
}
