// The gallery of labelled faces: a directory listing filtered by extension,
// each accepted file with a detectable face contributing its first encoding
// and its name without extension, as two index-aligned lists.

module KnownFaces {
  import opened Text

  /** The two extension filters of the code base: a lower-cased test for
      ".jpg"/".png" (the GUI function and the batch script) and a
      case-sensitive test for ".jpg"/".png"/".jpeg" (the student system). */
  datatype ExtensionRule = AnyCaseJpgPng | ExactJpgPngJpeg

  predicate Accepts(rule: ExtensionRule, fileName: string)
  {
    match rule
    case AnyCaseJpgPng =>
      EndsWith(Lower(fileName), ".jpg") || EndsWith(Lower(fileName), ".png")
    case ExactJpgPngJpeg =>
      EndsWith(fileName, ".jpg") || EndsWith(fileName, ".png") || EndsWith(fileName, ".jpeg")
  }

  /** A listed file adds an entry when its extension passes and the encoder
      finds at least one face in it. */
  predicate Contributes<E>(rule: ExtensionRule, encode: string -> seq<E>, fileName: string)
  {
    Accepts(rule, fileName) && |encode(fileName)| > 0
  }

  /** The parallel lists known_face_names / known_face_encodings. */
  datatype Gallery<E> = Gallery(names: seq<string>, encodings: seq<E>) {
    predicate Aligned()
    {
      |names| == |encodings|
    }

    /** Promotion: append a name and its encoding to both lists. */
    function Add(name: string, encoding: E): (g: Gallery<E>)
      requires Aligned()
      ensures g.Aligned() && |g.names| == |names| + 1
      ensures g.names[|names|] == name && g.encodings[|encodings|] == encoding
      ensures g.names[..|names|] == names && g.encodings[..|encodings|] == encodings
    {
      Gallery(names + [name], encodings + [encoding])
    }
  }

  /** The gallery a listing yields, entry by entry in listing order. */
  function Build<E>(listing: seq<string>, encode: string -> seq<E>, rule: ExtensionRule): (g: Gallery<E>)
    ensures g.Aligned() && |g.names| <= |listing|
    decreases |listing|
  {
    if |listing| == 0 then Gallery([], [])
    else
      var g := Build(listing[..|listing| - 1], encode, rule);
      var fileName := listing[|listing| - 1];
      if Contributes(rule, encode, fileName)
      then Gallery(g.names + [SplitExtRoot(fileName)], g.encodings + [encode(fileName)[0]])
      else g
  }

  /** The loading loop: for each listed file whose extension passes and
      whose encoder output is non-empty, append its first encoding and its
      extension-less name. */
  method Load<E>(listing: seq<string>, encode: string -> seq<E>, rule: ExtensionRule)
    returns (names: seq<string>, encodings: seq<E>)
    ensures Gallery(names, encodings) == Build(listing, encode, rule)
  {
    names, encodings := [], [];
    for i := 0 to |listing|
      invariant Gallery(names, encodings) == Build(listing[..i], encode, rule)
    {
      assert listing[..i + 1][..i] == listing[..i];
      var fileName := listing[i];
      if Accepts(rule, fileName) {
        var encs := encode(fileName);
        if |encs| > 0 {
          encodings := encodings + [encs[0]];
          names := names + [SplitExtRoot(fileName)];
        }
      }
    }
    assert listing[..|listing|] == listing;
  }

  /** Entry k of the gallery came from listing position pos[k]. */
  ghost predicate Sourced<E>(listing: seq<string>, encode: string -> seq<E>, rule: ExtensionRule,
                       g: Gallery<E>, pos: seq<nat>)
  {
    && g.Aligned()
    && |pos| == |g.names|
    && (forall k :: 0 <= k < |pos| ==>
          && pos[k] < |listing|
          && Contributes(rule, encode, listing[pos[k]])
          && g.names[k] == SplitExtRoot(listing[pos[k]])
          && g.encodings[k] == encode(listing[pos[k]])[0])
    && (forall k, l :: 0 <= k < l < |pos| ==> pos[k] < pos[l])
  }

  /** Every gallery entry comes from a contributing file, entries keep the
      listing order, and no contributing file is missed: pos[k] is the
      listing position that produced entry k. */
  lemma {:induction false} BuildSources<E>(listing: seq<string>, encode: string -> seq<E>, rule: ExtensionRule)
    returns (pos: seq<nat>)
    ensures Sourced(listing, encode, rule, Build(listing, encode, rule), pos)
    ensures forall j :: 0 <= j < |listing| && Contributes(rule, encode, listing[j]) ==> j in pos
    decreases |listing|
  {
    if |listing| == 0 {
      pos := [];
    } else {
      var init := listing[..|listing| - 1];
      var last := |listing| - 1;
      var pos0 := BuildSources(init, encode, rule);
      pos := if Contributes(rule, encode, listing[last]) then pos0 + [last] else pos0;
      SoundStep(listing, encode, rule, pos0, pos);
      CompleteStep(listing, encode, rule, pos0, pos);
    }
  }

  lemma SoundStep<E>(listing: seq<string>, encode: string -> seq<E>, rule: ExtensionRule,
                     pos0: seq<nat>, pos: seq<nat>)
    requires |listing| > 0
    requires Sourced(listing[..|listing| - 1], encode, rule, Build(listing[..|listing| - 1], encode, rule), pos0)
    requires pos == if Contributes(rule, encode, listing[|listing| - 1]) then pos0 + [|listing| - 1] else pos0
    ensures Sourced(listing, encode, rule, Build(listing, encode, rule), pos)
  {
    var init := listing[..|listing| - 1];
    var last := |listing| - 1;
    var g0 := Build(init, encode, rule);
    var g := Build(listing, encode, rule);
    if Contributes(rule, encode, listing[last]) {
      assert g == Gallery(g0.names + [SplitExtRoot(listing[last])], g0.encodings + [encode(listing[last])[0]]);
    } else {
      assert g == g0;
    }
    forall k | 0 <= k < |pos|
      ensures pos[k] < |listing| && Contributes(rule, encode, listing[pos[k]])
      ensures g.names[k] == SplitExtRoot(listing[pos[k]]) && g.encodings[k] == encode(listing[pos[k]])[0]
    {
      if k < |pos0| {
        assert init[pos0[k]] == listing[pos0[k]];
      }
    }
  }

  lemma CompleteStep<E>(listing: seq<string>, encode: string -> seq<E>, rule: ExtensionRule,
                        pos0: seq<nat>, pos: seq<nat>)
    requires |listing| > 0
    requires forall j :: 0 <= j < |listing| - 1 && Contributes(rule, encode, listing[..|listing| - 1][j]) ==> j in pos0
    requires pos == if Contributes(rule, encode, listing[|listing| - 1]) then pos0 + [|listing| - 1] else pos0
    ensures forall j :: 0 <= j < |listing| && Contributes(rule, encode, listing[j]) ==> j in pos
  {
    forall j | 0 <= j < |listing| - 1 && Contributes(rule, encode, listing[j])
      ensures j in pos0
    {
      assert listing[..|listing| - 1][j] == listing[j];
    }
  }

  /** The length of the extension an accepted name loses. */
  function ExtensionLength(rule: ExtensionRule, fileName: string): nat
  {
    if rule == ExactJpgPngJpeg && EndsWith(fileName, ".jpeg") then 5 else 4
  }

  /** An accepted file's gallery name is the file name without its image
      extension (in whatever case it was written), except for a name made
      only of dots before the extension, which splitext leaves whole. */
  lemma AcceptedNameDropsExtension(rule: ExtensionRule, fileName: string)
    requires Accepts(rule, fileName)
    ensures var n := ExtensionLength(rule, fileName);
      && n <= |fileName|
      && ((exists i :: 0 <= i < |fileName| - n && fileName[i] != '.') ==>
            SplitExtRoot(fileName) == fileName[..|fileName| - n])
      && ((forall i :: 0 <= i < |fileName| - n ==> fileName[i] == '.') ==>
            SplitExtRoot(fileName) == fileName)
  {
    var n := ExtensionLength(rule, fileName);
    var m := |fileName|;
    if rule == AnyCaseJpgPng {
      var low := Lower(fileName);
      EndsWithTail(low, ".jpg");
      EndsWithTail(low, ".png");
      assert low[m - 4..] == ".jpg" || low[m - 4..] == ".png";
      assert low[m - 4] == low[m - 4..][0] == '.';
      assert fileName[m - 4] == '.';
      forall i | m - 4 < i < m
        ensures fileName[i] != '.'
      {
        assert low[i] == low[m - 4..][i - (m - 4)];
      }
    } else {
      EndsWithTail(fileName, ".jpg");
      EndsWithTail(fileName, ".png");
      EndsWithTail(fileName, ".jpeg");
      var ext := fileName[m - n..];
      assert ext == ".jpg" || ext == ".png" || ext == ".jpeg";
      assert fileName[m - n] == ext[0];
      forall i | m - n < i < m
        ensures fileName[i] != '.'
      {
        assert fileName[i] == ext[i - (m - n)];
      }
    }
    RootDropsExtension(fileName, n);
  }

  /** The file a promotion saves into the gallery directory: the entered
      name with every space replaced by "_", followed by ".jpg". */
  function ImageFileName(name: string): string
  {
    ReplaceSpaces(name) + ".jpg"
  }

  /** The saved image's name ends in ".jpg", in lower case. */
  lemma ImageFileAccepted(name: string)
    ensures Accepts(AnyCaseJpgPng, ImageFileName(name))
    ensures Accepts(ExactJpgPngJpeg, ImageFileName(name))
  {
    var f := ImageFileName(name);
    var m := |f|;
    assert f[m - 4..] == ".jpg";
    EndsWithTail(f, ".jpg");
    var low := Lower(f);
    forall i | 0 <= i < 4
      ensures low[m - 4..][i] == ".jpg"[i]
    {
      assert low[m - 4 + i] == LowerChar(f[m - 4 + i]);
    }
    assert low[m - 4..] == ".jpg";
    EndsWithTail(low, ".jpg");
  }

  /** splitext takes the ".jpg" back off the saved image's name. */
  lemma ImageFileRoot(name: string)
    requires exists i :: 0 <= i < |name| && name[i] != '.'
    ensures SplitExtRoot(ImageFileName(name)) == ReplaceSpaces(name)
  {
    var f := ImageFileName(name);
    var m := |f|;
    assert f[..m - 4] == ReplaceSpaces(name);
    assert f[m - 4..] == ".jpg";
    forall i | m - 4 < i < m
      ensures f[i] != '.'
    {
      assert f[i] == f[m - 4..][i - (m - 4)];
    }
    var i :| 0 <= i < |name| && name[i] != '.';
    assert f[i] == ReplaceSpaces(name)[i];
    RootDropsExtension(f, 4);
  }

  /** Replacing spaces changes a name exactly when it has a space. */
  lemma ReplaceSpacesKeeps(name: string)
    ensures ReplaceSpaces(name) == name <==> ' ' !in name
  {
    if ' ' in name {
      var j :| 0 <= j < |name| && name[j] == ' ';
      assert ReplaceSpaces(name)[j] != name[j];
    } else {
      assert ReplaceSpaces(name) == name;
    }
  }

  /** A promoted face's image passes both extension filters and is loaded
      back under the name with spaces replaced, so the next run knows it
      under the entered name exactly when that name has no space. */
  lemma SavedImageReloadsAs(name: string)
    requires exists i :: 0 <= i < |name| && name[i] != '.'
    ensures Accepts(AnyCaseJpgPng, ImageFileName(name))
    ensures Accepts(ExactJpgPngJpeg, ImageFileName(name))
    ensures SplitExtRoot(ImageFileName(name)) == ReplaceSpaces(name)
    ensures SplitExtRoot(ImageFileName(name)) == name <==> ' ' !in name
  {
    ImageFileAccepted(name);
    ImageFileRoot(name);
    ReplaceSpacesKeeps(name);
  }
}
