/**
 File names in the working directory and the derivation of a subtitle file's
 name from its media file's, as `PurePath.suffix` and `PurePath.with_suffix`
 define them for a single path component on a POSIX system.
 */
module Paths {
  import opened Wrappers
  import opened Strings

  /** The extension every subtitle file gets. */
  const SubtitleSuffix: string := ".srt"

  /** `str.rfind('.')`: the position of the last dot, if there is one. */
  function LastDot(name: string): Option<nat> {
    if name == [] then None
    else if name[|name| - 1] == '.' then Some(|name| - 1)
    else LastDot(name[..|name| - 1])
  }

  /** The last dot is a dot, and no dot follows it; there is none only in a name without dots. */
  lemma {:induction false} LastDotSpec(name: string)
    ensures LastDot(name).None? <==> '.' !in name
    ensures LastDot(name).Some? ==>
      var i := LastDot(name).value;
      i < |name| && name[i] == '.' && '.' !in name[i + 1..]
  {
    if name != [] && name[|name| - 1] != '.' {
      var init := name[..|name| - 1];
      LastDotSpec(init);
      assert name == init + [name[|name| - 1]];
      if LastDot(init).Some? {
        var i := LastDot(init).value;
        assert name[i + 1..] == init[i + 1..] + [name[|name| - 1]];
      }
    }
  }

  /**
   `PurePath.suffix`: the name from its last dot on, unless that dot is the
   first character (a hidden file such as `.mp4`) or the last one.
   */
  function Suffix(name: string): string {
    LastDotSpec(name);
    match LastDot(name)
    case None => []
    case Some(i) => if 0 < i < |name| - 1 then name[i..] else []
  }

  /**
   A suffix is empty or a dot followed by at least one other character and
   no dot; it ends the name. It is non-empty exactly when the name's last dot
   is neither its first nor its last character.
   */
  lemma SuffixSpec(name: string)
    ensures var s := Suffix(name);
      && (s == [] || (s[0] == '.' && |s| >= 2 && '.' !in s[1..]))
      && (|s| < |name| || s == [])
      && s == name[|name| - |s|..]
    ensures Suffix(name) != [] <==>
      exists i :: 0 < i < |name| - 1 && name[i] == '.' && '.' !in name[i + 1..]
  {
    LastDotSpec(name);
    if LastDot(name).Some? {
      var i := LastDot(name).value;
      assert name[i..][1..] == name[i + 1..];
    }
    forall i | 0 < i < |name| - 1 && name[i] == '.' && '.' !in name[i + 1..]
      ensures LastDot(name) == Some(i)
    {
      assert name[i] in name;
      var j := LastDot(name).value;
      DotAfter(name, i, j);
      DotAfter(name, j, i);
    }
  }

  /** A dot at `i` lies after every position before it. */
  lemma DotAfter(name: string, j: nat, i: nat)
    requires j < |name| && i < |name|
    ensures j < i && name[i] == '.' ==> '.' in name[j + 1..]
  {
    if j < i && name[i] == '.' {
      assert name[j + 1..][i - j - 1] == name[i];
    }
  }

  /** `PurePath.stem`: the name without its suffix. */
  function Stem(name: string): string {
    SuffixSpec(name);
    name[..|name| - |Suffix(name)|]
  }

  /** The stem followed by the suffix is the name. */
  lemma StemSpec(name: string)
    ensures name == Stem(name) + Suffix(name)
  {
    SuffixSpec(name);
  }

  /** A suffix `with_suffix` accepts: empty, or a dot followed by more, with no separator. */
  predicate ValidSuffix(suffix: string) {
    '/' !in suffix && (suffix == [] || (suffix[0] == '.' && suffix != "."))
  }

  /**
   `PurePath.with_suffix(suffix)`: the stem followed by the new suffix; the
   ValueError raised for an empty name or an invalid suffix is `None`.
   */
  function WithSuffix(name: string, suffix: string): (r: Option<string>)
    ensures r.Some? <==> name != [] && ValidSuffix(suffix)
    ensures r.Some? ==> r.value == Stem(name) + suffix
  {
    StemSpec(name);
    if name == [] || !ValidSuffix(suffix) then None
    else if Suffix(name) == [] then Some(name + suffix)
    else Some(name[..|name| - |Suffix(name)|] + suffix)
  }

  /**
   `video_file.with_suffix('.srt')`. Every name a directory holds is non-empty,
   and for those this is what `with_suffix` returns; the empty name, which
   `with_suffix` rejects, is given `.srt` so that the naming is total.
   */
  function OutputName(name: string): string {
    Stem(name) + SubtitleSuffix
  }

  /** A non-empty name has a non-empty stem. */
  lemma StemNonEmpty(name: string)
    requires name != []
    ensures Stem(name) != []
  {
    if Suffix(name) != [] {
      var i := LastDot(name).value;
      assert Suffix(name) == name[i..];
    }
  }

  /**
   The subtitle name keeps the media file's stem and has `.srt` as its
   suffix: only the final suffix is replaced. It stays in the same directory
   (no separator is introduced) and always ends in `.srt`. It is what
   `with_suffix('.srt')` returns, which never raises for a non-empty name.
   */
  lemma OutputNameShape(name: string)
    requires name != []
    ensures WithSuffix(name, SubtitleSuffix) == Some(OutputName(name))
    ensures Stem(OutputName(name)) == Stem(name)
    ensures Suffix(OutputName(name)) == SubtitleSuffix
    ensures EndsWith(OutputName(name), SubtitleSuffix)
    ensures '/' !in name ==> '/' !in OutputName(name)
  {
    StemNonEmpty(name);
    Extended(Stem(name), SubtitleSuffix);
    NoSeparatorAdded(name);
  }

  /** A non-empty stem followed by a one-dot extension splits back into the two. */
  lemma Extended(stem: string, ext: string)
    requires stem != [] && |ext| >= 2 && ext[0] == '.' && '.' !in ext[1..]
    ensures Suffix(stem + ext) == ext && Stem(stem + ext) == stem
    ensures EndsWith(stem + ext, ext)
  {
    LastDotBeforeExtension(stem, ext);
    assert (stem + ext)[|stem|..] == ext;
  }

  lemma NoSeparatorAdded(name: string)
    requires name != []
    ensures '/' !in name ==> '/' !in OutputName(name)
  {
    var stem, out := Stem(name), OutputName(name);
    if '/' !in name {
      forall k | 0 <= k < |out| ensures out[k] != '/' {
        if k < |stem| {
          assert out[k] == name[k];
        } else {
          assert out[k] == SubtitleSuffix[k - |stem|];
        }
      }
    }
  }

  /** The last dot of `stem + ext` is the one that starts `ext`, if `ext` has no other. */
  lemma {:induction false} LastDotBeforeExtension(stem: string, ext: string)
    requires ext != [] && ext[0] == '.' && '.' !in ext[1..]
    ensures LastDot(stem + ext) == Some(|stem|)
  {
    var s := stem + ext;
    if |ext| > 1 {
      assert s[|s| - 1] == ext[|ext| - 1] && ext[|ext| - 1] in ext[1..];
      assert s[..|s| - 1] == stem + ext[..|ext| - 1];
      assert ext[..|ext| - 1][1..] == ext[1..|ext| - 1];
      LastDotBeforeExtension(stem, ext[..|ext| - 1]);
    }
  }

  /** Two names with the same stem get the same subtitle name. */
  lemma SameStemSameOutput(a: string, b: string)
    requires a != [] && b != []
    requires Stem(a) == Stem(b)
    ensures OutputName(a) == OutputName(b)
  {
  }

  /**
   A plain name, a name with two dots (only the last suffix is replaced) and a
   hidden name (`.mp4` is all stem, so its subtitle name keeps the extension).
   */
  lemma NamingExamples()
    ensures OutputName("talk.mp4") == "talk.srt"
    ensures OutputName("a.b.mp3") == "a.b.srt"
    ensures OutputName(".mp4") == ".mp4.srt"
  {
    LastDotBeforeExtension("talk", ".mp4");
    assert "talk" + ".mp4" == "talk.mp4";
    LastDotBeforeExtension("a.b", ".mp3");
    assert "a.b" + ".mp3" == "a.b.mp3";
    LastDotBeforeExtension("", ".mp4");
    assert "" + ".mp4" == ".mp4";
  }

  /** Media files differing only in their extension share a subtitle name. */
  lemma SameStemExample()
    ensures OutputName("a.mp3") == "a.srt" && OutputName("a.mp4") == "a.srt"
  {
    LastDotBeforeExtension("a", ".mp3");
    LastDotBeforeExtension("a", ".mp4");
    assert "a" + ".mp3" == "a.mp3" && "a" + ".mp4" == "a.mp4";
  }
}
