/**
  The C++ path helpers `Tools::splitFilePath` and `Tools::mergeIntoFilePath`.
  Splitting reads `/`-separated pieces the way `std::getline` does, then
  drops one leading empty piece; merging writes the delimiter in front of
  every piece.
 */
module FilePaths {
  import opened Wrappers

  const Slash: char := '/'
  const Backslash: char := '\\'

  /** Every `/`-separated field of `s`, empty ones included. */
  function Fields(s: string): (r: seq<string>)
    ensures |r| >= 1
  {
    if s == [] then [""]
    else
      var rest := Fields(s[1..]);
      if s[0] == Slash then [""] + rest
      else [[s[0]] + rest[0]] + rest[1..]
  }

  /** No field holds a `/`. */
  lemma {:induction false} FieldsNoSlash(s: string)
    ensures forall i :: 0 <= i < |Fields(s)| ==> Slash !in Fields(s)[i]
    decreases |s|
  {
    if s != [] {
      FieldsNoSlash(s[1..]);
      var rest := Fields(s[1..]);
      if s[0] != Slash {
        assert Slash !in [s[0]] + rest[0];
        forall i | 0 < i < |Fields(s)| ensures Slash !in Fields(s)[i] {
          assert Fields(s)[i] == rest[i];
        }
      } else {
        forall i | 0 < i < |Fields(s)| ensures Slash !in Fields(s)[i] {
          assert Fields(s)[i] == rest[i - 1];
        }
      }
    }
  }

  /** The fields joined with `/` give the string back. */
  lemma {:induction false} JoinFields(s: string)
    ensures Join(Fields(s)) == s
    decreases |s|
  {
    if s != [] {
      JoinFields(s[1..]);
      assert s == [s[0]] + s[1..];
      if s[0] == Slash {
        JoinFieldsSlash(s);
      } else {
        JoinFieldsOther(s);
      }
    }
  }

  /** A leading `/` opens an empty first field. */
  lemma JoinFieldsSlash(s: string)
    requires s != [] && s[0] == Slash
    ensures Join(Fields(s)) == [Slash] + Join(Fields(s[1..]))
  {
    var rest := Fields(s[1..]);
    assert Fields(s) == [""] + rest;
    JoinCons("", rest);
  }

  /** Any other first character starts the first field. */
  lemma JoinFieldsOther(s: string)
    requires s != [] && s[0] != Slash
    ensures Join(Fields(s)) == [s[0]] + Join(Fields(s[1..]))
  {
    var rest := Fields(s[1..]);
    assert rest == [rest[0]] + rest[1..];
    assert Fields(s) == [[s[0]] + rest[0]] + rest[1..];
    JoinPrepend(s[0], rest[0], rest[1..]);
  }

  /** Putting a character in front of the first piece puts it in front of the joined string. */
  lemma JoinPrepend(c: char, head: string, tail: seq<string>)
    ensures Join([[c] + head] + tail) == [c] + Join([head] + tail)
  {
    JoinCons([c] + head, tail);
    JoinCons(head, tail);
    if |tail| > 0 {
      assert ([c] + head) + [Slash] + Join(tail) == [c] + (head + [Slash] + Join(tail));
    }
  }

  /** The first field is empty exactly when `s` starts with `/` or is empty. */
  lemma FirstField(s: string)
    ensures (Fields(s)[0] == "") <==> (s == "" || s[0] == Slash)
  {
  }

  /** The last field is empty exactly when `s` ends with `/` or is empty. */
  lemma {:induction false} LastField(s: string)
    ensures var f := Fields(s); (f[|f| - 1] == "") <==> (s == "" || s[|s| - 1] == Slash)
    decreases |s|
  {
    if s != [] {
      LastField(s[1..]);
      if |s| > 1 {
        assert s[1..][|s| - 2] == s[|s| - 1];
      }
    }
  }

  /** The pieces written back together with `/` between them. */
  function Join(pieces: seq<string>): string {
    if |pieces| == 0 then ""
    else if |pieces| == 1 then pieces[0]
    else pieces[0] + [Slash] + Join(pieces[1..])
  }

  lemma JoinCons(head: string, tail: seq<string>)
    ensures Join([head] + tail) == if |tail| == 0 then head else head + [Slash] + Join(tail)
  {
    assert ([head] + tail)[1..] == tail;
  }

  /**
    The pieces `while (std::getline(ss, component, '/'))` collects: every
    field, except that a final empty field (after a trailing `/`, or the
    whole of an empty string) is not extracted.
   */
  function GetlinePieces(s: string): (r: seq<string>)
    ensures |r| == 0 <==> s == ""
    ensures forall i :: 0 <= i < |r| ==> Slash !in r[i]
    ensures s != "" && s[|s| - 1] != Slash ==> r == Fields(s)
    ensures s != "" && s[|s| - 1] == Slash ==> r + [""] == Fields(s)
  {
    var f := Fields(s);
    FieldsNoSlash(s);
    LastField(s);
    if f[|f| - 1] == "" then
      assert f[..|f| - 1] + [""] == f;
      f[..|f| - 1]
    else f
  }

  /**
    `Tools::splitFilePath`: an empty path makes `at(0)` throw
    `std::out_of_range`; a leading empty piece, as in an absolute path, is
    erased once.
   */
  function Split(path: string): (r: Result<seq<string>, string>)
    ensures r.Failure? <==> path == ""
    ensures r.Success? ==> forall i :: 0 <= i < |r.value| ==> Slash !in r.value[i]
    ensures r.Success? && path[0] == Slash ==> [""] + r.value == GetlinePieces(path)
    ensures r.Success? && path[0] != Slash ==> r.value == GetlinePieces(path) && r.value[0] != ""
  {
    FirstField(path);
    var pieces := GetlinePieces(path);
    if |pieces| == 0 then Failure("std::out_of_range: vector::at")
    else if pieces[0] == "" then
      assert [""] + pieces[1..] == pieces;
      Success(pieces[1..])
    else Success(pieces)
  }

  /** `Tools::mergeIntoFilePath` with the platform's delimiter: the delimiter precedes every piece. */
  function Merge(pieces: seq<string>, delimiter: char): (r: string)
    ensures |pieces| == 0 ==> r == ""
    ensures |pieces| > 0 ==> r == [delimiter] + pieces[0] + Merge(pieces[1..], delimiter)
  {
    if |pieces| == 0 then "" else [delimiter] + pieces[0] + Merge(pieces[1..], delimiter)
  }

  /** With `/` as delimiter, merging is joining behind a leading slash. */
  lemma {:induction false} MergeIsJoin(pieces: seq<string>)
    requires |pieces| > 0
    ensures Merge(pieces, Slash) == [Slash] + Join(pieces)
    decreases |pieces|
  {
    if |pieces| > 1 {
      MergeIsJoin(pieces[1..]);
    }
  }

  /** Merging (on Linux) undoes splitting for a path that starts with `/` and does not end with one. */
  lemma MergeSplit(path: string)
    requires |path| > 1 && path[0] == Slash && path[|path| - 1] != Slash
    ensures Split(path).Success?
    ensures Merge(Split(path).value, Slash) == path
  {
    var pieces := Split(path).value;
    LastField(path);
    assert Fields(path) == [""] + pieces;
    assert |pieces| > 0;
    JoinFields(path);
    JoinCons("", pieces);
    MergeIsJoin(pieces);
  }

  /** A trailing `/` adds no piece: splitting `p + "/"` gives what splitting `p` gives. */
  lemma TrailingSlashIgnored(path: string)
    requires path != "" && path[|path| - 1] != Slash
    ensures Split(path + [Slash]) == Split(path)
  {
    var p := path + [Slash];
    FieldsAppendSlash(path);
    assert GetlinePieces(p) == Fields(path);
    assert p[0] == path[0];
  }

  /** Appending `/` ends the last field and opens an empty one. */
  lemma {:induction false} FieldsAppendSlash(s: string)
    ensures Fields(s + [Slash]) == Fields(s) + [""]
    decreases |s|
  {
    if s == [] {
      assert [] + [Slash] == [Slash];
      assert [Slash][1..] == [];
    } else {
      assert (s + [Slash])[0] == s[0];
      assert (s + [Slash])[1..] == s[1..] + [Slash];
      FieldsAppendSlash(s[1..]);
    }
  }

  /** An absolute path loses only its first empty piece: `//a` splits into an empty piece and `a`. */
  lemma LeadingEmptyRemovedOnce()
    ensures Split("//a") == Success(["", "a"])
  {
    FieldsOfA();
    assert "//a"[1..] == "/a";
    assert "/a"[1..] == "a";
    assert Fields("/a") == ["", "a"];
    assert Fields("//a") == ["", "", "a"];
  }

  /** On Windows the delimiter is a backslash, so merging a split path does not give it back. */
  lemma WindowsMergeDiffers()
    ensures Merge(Split("/a").value, Backslash) == "\\a"
  {
    FieldsOfA();
    assert "/a"[1..] == "a";
    assert Fields("/a") == ["", "a"];
  }

  lemma FieldsOfA()
    ensures Fields("a") == ["a"]
  {
    assert "a"[0] == 'a' && "a"[1..] == "";
    assert Fields("") == [""];
    assert ['a'] + "" == "a";
  }
}
