/**
 * The blob-identifier rule of config/cloudinary.js: `deleteFile` turns the URL
 * or path it is given into the identifier it asks the blob store to destroy,
 * by taking the last '/'-separated segment and cutting it at its first '.'.
 * The effectful half of `deleteFile` (the falsy guard, the destroy call and
 * the rethrow) is `MemoryController.Controller.DeleteFile`, beside the blob
 * store it changes.
 */
module Cloudinary {
  import opened Js

  /** Folder that the upload storage places new blobs in. */
  const UploadFolder := "gallery-app"

  /** `url.split('/').pop()`: the last '/'-separated segment. */
  function LastSegment(url: string): (seg: string)
    ensures '/' !in seg
    ensures EndsWith(url, seg)
    ensures |seg| < |url| ==> url[|url| - |seg| - 1] == '/'
  {
    LastPieceIsSuffix(url, '/');
    Last(Split(url, '/'))
  }

  /** `url.split('/').pop().split('.')[0]`: the identifier handed to destroy. */
  function PublicId(url: string): (id: string)
    ensures '/' !in id && '.' !in id
    ensures id <= LastSegment(url)
  {
    var seg := LastSegment(url);
    FirstPieceIsPrefix(seg, '.');
    Split(seg, '.')[0]
  }

  /** The last piece of a split is a suffix of the string, preceded by the
      separator unless it is the whole string. */
  lemma {:induction false} LastPieceIsSuffix(s: string, sep: char)
    ensures EndsWith(s, Last(Split(s, sep)))
    ensures |Last(Split(s, sep))| < |s| ==> s[|s| - |Last(Split(s, sep))| - 1] == sep
    decreases |s|
  {
    if |s| > 0 {
      var t := s[1..];
      LastPieceIsSuffix(t, sep);
      if s[0] != sep && |Split(t, sep)| == 1 {
        OnePieceIsWhole(t, sep);
        assert Split(s, sep) == [[s[0]] + t];
        assert [s[0]] + t == s;
      } else {
        var last := Last(Split(t, sep));
        LastOfTail(s, sep);
        if s[0] != sep {
          SeveralPiecesHaveSep(t, sep);
          ProperSuffix(t, last, sep);
        }
        SuffixOfTail(s, last, sep);
      }
    }
  }

  /** Past a leading separator, or with more pieces to come, the last piece
      of `s` is that of `s[1..]`. */
  lemma LastOfTail(s: string, sep: char)
    requires |s| > 0 && (s[0] == sep || |Split(s[1..], sep)| >= 2)
    ensures Last(Split(s, sep)) == Last(Split(s[1..], sep))
  {
  }

  lemma ProperSuffix(t: string, x: string, sep: char)
    requires sep in t && sep !in x && EndsWith(t, x)
    ensures |x| < |t|
  {
  }

  /** A suffix of `s[1..]` preceded there by the separator (or, when it is
      all of `s[1..]`, by a leading separator) is one of `s` as well. */
  lemma SuffixOfTail(s: string, x: string, sep: char)
    requires |s| > 0 && EndsWith(s[1..], x)
    requires |x| < |s| - 1 ==> s[1..][|s| - 1 - |x| - 1] == sep
    requires |x| == |s| - 1 ==> s[0] == sep
    ensures EndsWith(s, x)
    ensures |x| < |s| ==> s[|s| - |x| - 1] == sep
  {
    assert s[|s| - |x|..] == s[1..][|s| - 1 - |x|..];
  }

  lemma OnePieceIsWhole(t: string, sep: char)
    requires |Split(t, sep)| == 1
    ensures Split(t, sep)[0] == t
  {
    JoinSplit(t, sep);
  }

  /** A string that splits into several pieces contains the separator. */
  lemma SeveralPiecesHaveSep(t: string, sep: char)
    requires |Split(t, sep)| >= 2
    ensures sep in t
  {
    var parts := Split(t, sep);
    JoinSplit(t, sep);
    assert t == parts[0] + [sep] + Join(parts[1..], sep);
    assert t[|parts[0]|] == sep;
  }

  /** The first piece of a split is a prefix of the string, followed by the
      separator unless it is the whole string. */
  lemma {:induction false} FirstPieceIsPrefix(s: string, sep: char)
    ensures Split(s, sep)[0] <= s
    ensures |Split(s, sep)[0]| < |s| ==> s[|Split(s, sep)[0]|] == sep
    decreases |s|
  {
    if |s| > 0 && s[0] != sep {
      FirstPieceIsPrefix(s[1..], sep);
      var first := Split(s[1..], sep)[0];
      assert Split(s, sep)[0] == [s[0]] + first;
    }
  }

  /** The extraction, characterised: a URL made of a directory part ending in
      '/', a name without '/' or '.', and an extension part that is empty or
      starts with '.', yields exactly that name. */
  lemma PublicIdOf(dir: string, name: string, ext: string)
    requires dir == "" || dir[|dir| - 1] == '/'
    requires '/' !in name && '.' !in name
    requires '/' !in ext && (ext == "" || ext[0] == '.')
    ensures PublicId(dir + name + ext) == name
  {
    var file := name + ext;
    assert '/' !in file by {
      forall i | 0 <= i < |file| ensures file[i] != '/' {
        if i < |name| { assert file[i] == name[i]; } else { assert file[i] == ext[i - |name|]; }
      }
    }
    SplitNoSep(file, '/');
    if dir == "" {
      assert dir + name + ext == file;
    } else {
      var a := dir[..|dir| - 1];
      assert dir + name + ext == a + ['/'] + file;
      LastPieceAfterSep(a, file, '/');
    }
    assert LastSegment(dir + name + ext) == file;
    SplitPrefix(name, ext, '.');
    assert Split(ext, '.')[0] == "";
  }

  /** A string without '/' or '.', such as a bare public id, passes through. */
  lemma PublicIdOfBareId(id: string)
    requires '/' !in id && '.' !in id
    ensures PublicId(id) == id
  {
    PublicIdOf("", id, "");
    assert "" + id + "" == id;
  }

  /** A blob stored as `<dir>/gallery-app/<name><ext>` is destroyed under
      `<name>` alone: the upload folder never reaches the extracted id. */
  lemma FolderDropped(dir: string, name: string, ext: string)
    requires dir == "" || dir[|dir| - 1] == '/'
    requires '/' !in name && '.' !in name
    requires '/' !in ext && (ext == "" || ext[0] == '.')
    ensures PublicId(dir + UploadFolder + "/" + name + ext) == name
    ensures PublicId(dir + UploadFolder + "/" + name + ext) != UploadFolder + "/" + name
  {
    var folderDir := dir + UploadFolder + "/";
    assert folderDir[|folderDir| - 1] == '/';
    PublicIdOf(folderDir, name, ext);
    assert (UploadFolder + "/" + name)[|UploadFolder|] == '/';
  }

  // Examples: a delivery URL, a name with two dots, and a name that is all
  // extension.

  lemma PublicIdOfDeliveryUrl()
    ensures PublicId("https://res.cloudinary.com/demo/upload/v1/gallery-app/abc.jpg") == "abc"
  {
    var dir := "https://res.cloudinary.com/demo/upload/v1/gallery-app/";
    assert dir + "abc" + ".jpg" == "https://res.cloudinary.com/demo/upload/v1/gallery-app/abc.jpg";
    PublicIdOf(dir, "abc", ".jpg");
  }

  lemma PublicIdOfTwoDots()
    ensures PublicId("a/b/c.v2.png") == "c"
  {
    assert "a/b/" + "c" + ".v2.png" == "a/b/c.v2.png";
    PublicIdOf("a/b/", "c", ".v2.png");
  }

  lemma PublicIdOfDotFile()
    ensures PublicId("x/.jpg") == ""
  {
    assert "x/" + "" + ".jpg" == "x/.jpg";
    PublicIdOf("x/", "", ".jpg");
  }
}
