/** The image server both GK-2A downloaders fetch from, and `os.path.basename`.

    An image of product `p` observed at `t` is published at
    `.../FD/{%Y%m}/{%d}/{%H}/{p}{%Y%m%d%H%M}.srv.png`; the colour downloader
    saves it under the last segment of that URL, the infrared one under a name
    it builds separately.  Both names are the same text.
 */
module Gk2a {
  import opened Decimal
  import opened Clock

  const KMA_HEAD: string := "https://nmsc.kma.go.kr/IMG/GK2A/AMI/PRIMARY/L1B/COMPLETE/FD/"
  const KMA_TAIL: string := ".srv.png"

  /** `{%Y%m}/{%d}/{%H}/`: the directory of the images of one hour. */
  function Folder(t: Instant): string {
    DateText(t)[..6] + "/" + DateText(t)[6..] + "/" + Pad(HourOf(t), 2) + "/"
  }

  /** `{p}{%Y%m%d%H%M}.srv.png`. */
  function ImageName(product: string, t: Instant): string {
    product + Stamp12(t) + KMA_TAIL
  }

  /** The URL of the `product` image observed at `t`. */
  function ImageUrl(product: string, t: Instant): string {
    KMA_HEAD + Folder(t) + ImageName(product, t)
  }

  /** The directory of an image agrees with the stamp in its name: year and
      month, day, and hour are the leading ten digits of `%Y%m%d%H%M`. */
  lemma FolderOfStamp(t: Instant)
    ensures var s := Stamp12(t); Folder(t) == s[..6] + "/" + s[6..8] + "/" + s[8..10] + "/"
  {
    var d, h, m := DateText(t), Pad(HourOf(t), 2), Pad(MinuteOf(t), 2);
    var s := d + h + m;
    assert s[..6] == d[..6] && s[6..8] == d[6..] && s[8..10] == h;
  }

  /** An image name determines the minute stamp in it. */
  lemma ImageNameInjective(product: string, a: Instant, b: Instant)
    requires ImageName(product, a) == ImageName(product, b)
    ensures Stamp12(a) == Stamp12(b)
  {
    var x, y := product + Stamp12(a), product + Stamp12(b);
    AppendInjective(x, y, KMA_TAIL, KMA_TAIL);
    AppendInjective(product, product, Stamp12(a), Stamp12(b));
  }

  /** `os.path.basename`: what follows the last `/`, or the whole text when
      there is none. */
  function Basename(s: string): (b: string)
    ensures '/' !in b && |b| <= |s| && s[|s| - |b|..] == b
    ensures |b| < |s| ==> s[|s| - |b| - 1] == '/'
    decreases |s|
  {
    if s == [] then []
    else if s[|s| - 1] == '/' then []
    else
      var init := s[..|s| - 1];
      var b := Basename(init);
      assert s[|s| - |b| - 1..] == init[|init| - |b|..] + [s[|s| - 1]];
      b + [s[|s| - 1]]
  }

  /** The last segment of `dir/name` is `name` when `name` holds no `/`. */
  lemma BasenameJoin(dir: string, name: string)
    requires '/' !in name
    ensures Basename(dir + "/" + name) == name
  {
    var s := dir + "/" + name;
    var b := Basename(s);
    assert s[|dir|] == '/';
    assert s[|s| - |name|..] == name;
  }

  lemma NameWithoutSlash(product: string, t: Instant)
    requires '/' !in product
    ensures '/' !in ImageName(product, t)
  {
    var s := Stamp12(t);
    assert forall i :: 0 <= i < |s| ==> IsDigit(s[i]);
  }

  /** The last segment of an image URL is the image name. */
  lemma UrlBasename(product: string, t: Instant)
    requires '/' !in product
    ensures Basename(ImageUrl(product, t)) == ImageName(product, t)
  {
    NameWithoutSlash(product, t);
    var f := Folder(t);
    var dir := KMA_HEAD + f[..|f| - 1];
    assert ImageUrl(product, t) == dir + "/" + ImageName(product, t);
    BasenameJoin(dir, ImageName(product, t));
  }
}
