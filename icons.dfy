/** The file-type icon shown next to each dropped file: the extension is the
    text after the last dot of the file name, and the extension picks an icon
    URL on the platform's content-delivery network. */
module Icons {
  import opened Types

  /** The content-delivery network folder both icon URLs start with. */
  const CdnFiles: string := "https://spoprod-a.akamaihd.net/files/"

  /** The rest of each URL. The long literals are written in pieces because
      the verifier reads single characters of short literals only. */
  const IconFolder: string := "odsp-next-prod_ship-2017-04-21-" + "sts_20170503.001/odsp-media/images/filetypes/16/"
  const PageAsset: string := "fabric-cdn-prod_20210115.001/" + "assets/item-types/32/spo.svg"

  /** The folder holding the 16-pixel file-type icons. */
  const ImgRoot: string := CdnFiles + IconFolder

  /** The icon for web pages, a complete URL on its own. */
  const PageIcon: string := CdnFiles + PageAsset

  /** The two URLs part right after the common folder. */
  lemma RootsDiffer()
    ensures |ImgRoot| > |CdnFiles| && |PageIcon| > |CdnFiles|
    ensures ImgRoot[|CdnFiles|] == 'o' && PageIcon[|CdnFiles|] == 'f'
  {
    assert IconFolder[0] == 'o' && PageAsset[0] == 'f';
  }

  const PageExtensions: set<string> := {"aspx", "htm", "html"}
  const PhotoExtensions: set<string> := {"jpg", "jpeg", "jfif", "gif", "png"}

  /** The switch of GetImgUrlByFileExtension. The default `genericfile.png`
      is overwritten before the switch, so an unknown extension gives
      `extension + ".png"`. The comparison is case-sensitive. */
  function ImgUrlByFileExtension(extension: string): (r: string)
    ensures r == PageIcon <==> extension in PageExtensions
    ensures r != PageIcon ==> ImgRoot <= r
    ensures extension in PhotoExtensions ==> r == ImgRoot + "photo.png"
    ensures extension == "folder" ==> r == ImgRoot + "folder.svg"
    ensures extension !in PageExtensions + PhotoExtensions + {"folder"} ==> r == ImgRoot + extension + ".png"
  {
    var root := ImgRoot;
    RootsDiffer();
    if extension in PageExtensions then PageIcon
    else if extension in PhotoExtensions then root + "photo.png"
    else if extension == "folder" then root + "folder.svg"
    else root + extension + ".png"
  }

  /** The last element of `name.split(".")`: the text after the last dot, or
      the whole name when it has no dot. */
  function LastSegment(name: string): (r: string)
    ensures '.' !in r
    ensures |r| <= |name| && name[|name| - |r|..] == r
    ensures |r| < |name| ==> name[|name| - |r| - 1] == '.'
  {
    if name == [] then []
    else if name[|name| - 1] == '.' then []
    else
      var init := name[..|name| - 1];
      var r := LastSegment(init) + [name[|name| - 1]];
      assert name[|name| - |r|..] == init[|init| - |r| + 1..] + [name[|name| - 1]];
      r
  }

  /** GetImgUrl: a missing or empty name counts as `file.bad`, so its
      extension is `bad`. */
  function GetImgUrl(fileName: Option<string>): (r: string)
    ensures r == PageIcon || ImgRoot <= r
    ensures r == PageIcon ==> fileName.Some? && LastSegment(fileName.value) in PageExtensions
  {
    var bad := "bad";
    assert bad !in PageExtensions by {
      assert bad[0] == 'b';
    }
    var extension := if fileName.None? || fileName.value == "" then bad else LastSegment(fileName.value);
    ImgUrlByFileExtension(extension)
  }

  /** The segment after the last dot of `base + "." + extension` is `extension`
      whenever `extension` has no dot: the last-dot split undoes joining. */
  lemma LastSegmentOfJoin(base: string, extension: string)
    requires '.' !in extension
    ensures LastSegment(base + "." + extension) == extension
  {
    var name := base + "." + extension;
    assert name[|name| - |extension|..] == extension;
    assert forall k :: |name| - |extension| <= k < |name| ==> name[k] != '.';
    assert name[|name| - |extension| - 1] == '.';
  }

  /** A named file gets the icon of the text after its last dot. */
  lemma GetImgUrlOfExtension(base: string, extension: string)
    requires '.' !in extension
    ensures GetImgUrl(Some(base + "." + extension)) == ImgUrlByFileExtension(extension)
  {
    LastSegmentOfJoin(base, extension);
  }

  /** A name without a dot is its own extension. */
  lemma GetImgUrlWithoutDot(name: string)
    requires name != "" && '.' !in name
    ensures GetImgUrl(Some(name)) == ImgUrlByFileExtension(name)
  {
    assert forall k :: 0 <= k < |name| ==> name[k] != '.';
    assert name[0..] == name;
  }

  /** A missing or empty name gets the icon for the extension `bad`. */
  lemma GetImgUrlOfMissingName()
    ensures GetImgUrl(None) == GetImgUrl(Some("")) == ImgRoot + "bad.png"
  {
  }

  /** The `genericfile.png` default is dead: that icon is produced only for a
      file whose extension is literally `genericfile`. */
  lemma {:induction false} GenericIconOnlyByName(extension: string)
    ensures ImgUrlByFileExtension(extension) == ImgRoot + "genericfile.png" <==> extension == "genericfile"
  {
    var r := ImgUrlByFileExtension(extension);
    var generic := ImgRoot + "genericfile.png";
    RootsDiffer();
    if extension in PageExtensions {
      assert r[|CdnFiles|] != generic[|CdnFiles|];
    } else if extension in PhotoExtensions {
      assert r[|ImgRoot|] == 'p' && generic[|ImgRoot|] == 'g';
    } else if extension == "folder" {
      assert r[|ImgRoot|] == 'f' && generic[|ImgRoot|] == 'g';
    } else {
      if r == generic {
        assert r == ImgRoot + (extension + ".png");
        assert extension + ".png" == generic[|ImgRoot|..];
        assert extension == (extension + ".png")[..|extension|];
      }
    }
  }

  /** The mapping is case-sensitive: an upper-case photo extension falls
      through to the generic `<extension>.png` rule. */
  lemma ExtensionCaseMatters()
    ensures ImgUrlByFileExtension("jpg") == ImgRoot + "photo.png"
    ensures ImgUrlByFileExtension("JPG") == ImgRoot + "JPG.png"
  {
    var lower, upper := "jpg", "JPG";
    assert lower[0] == 'j' && upper[0] == 'J';
    assert lower !in PageExtensions && lower in PhotoExtensions;
    assert upper !in PageExtensions && upper !in PhotoExtensions && upper != "folder";
  }
}
