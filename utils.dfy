/** The pure helpers of app/lib/utils.ts: expiry stamping, the countdown text,
    the kind-to-icon map, the `/uploads/` reference and the MIME classifier. */
module Utils {
  import opened Types
  import opened Strings

  const MsPerSecond := 1000
  const MsPerMinute := 60 * MsPerSecond

  /** How long a dump item lives, in minutes and in milliseconds. */
  const TtlMinutes := 10
  const TtlMs := TtlMinutes * MsPerMinute

  /** The minutes field of a timestamp (`Date.prototype.getMinutes`, in UTC). */
  function MinutesField(t: int): (m: int)
    ensures 0 <= m < 60
    ensures t % (60 * MsPerMinute) == m * MsPerMinute + t % MsPerMinute
  {
    (t / MsPerMinute) % 60
  }

  /** `Date.prototype.setMinutes(minutes)` (in UTC): the minutes field is replaced
      and a value above 59 carries into the hours; seconds and milliseconds stay. */
  function SetMinutes(t: int, minutes: int): int
  {
    t + (minutes - MinutesField(t)) * MsPerMinute
  }

  /** `getExpirationTime`: the current time with its minutes field advanced by ten,
      which is exactly ten minutes after `now`. */
  function ExpirationTime(now: int): (expiresAt: int)
    ensures expiresAt - now == 600000
  {
    SetMinutes(now, MinutesField(now) + TtlMinutes)
  }

  const ExpiredLabel := "Expired"

  /** `formatRelativeTime(expiresAt)` read at time `now`: whole seconds left
      (rounded down), as "<s> seconds" under a minute and "<m> min <s> sec" from
      one minute on; "Expired" exactly when the instant has passed. */
  function FormatRelativeTime(expiresAt: int, now: int): (r: string)
    ensures r == ExpiredLabel <==> expiresAt < now
  {
    var diffInSeconds := (expiresAt - now) / MsPerSecond;
    if diffInSeconds < 0 then ExpiredLabel
    else if diffInSeconds < 60 then NatToString(diffInSeconds) + " seconds"
    else NatToString(diffInSeconds / 60) + " min " + NatToString(diffInSeconds % 60) + " sec"
  }

  /** Under a minute left, with `s` whole seconds: "<s> seconds". */
  lemma CountdownSeconds(expiresAt: int, now: int, s: nat)
    requires s < 60
    requires s * MsPerSecond <= expiresAt - now < (s + 1) * MsPerSecond
    ensures FormatRelativeTime(expiresAt, now) == NatToString(s) + " seconds"
  {
  }

  /** From one minute on, with `m` minutes and `s` seconds left (`0 <= s < 60`):
      "<m> min <s> sec". */
  lemma CountdownMinutes(expiresAt: int, now: int, m: nat, s: nat)
    requires m >= 1 && s < 60
    requires (60 * m + s) * MsPerSecond <= expiresAt - now < (60 * m + s + 1) * MsPerSecond
    ensures FormatRelativeTime(expiresAt, now) == NatToString(m) + " min " + NatToString(s) + " sec"
  {
    var d := (expiresAt - now) / MsPerSecond;
    assert d == 60 * m + s;
    assert d / 60 == m && d % 60 == s;
  }

  const TextIcon := "\U{1F4DD}"
  const ImageIcon := "\U{1F5BC}\U{FE0F}"
  const PdfIcon := "\U{1F4C4}"
  const FileIcon := "\U{1F4CE}"
  /** The `default` branch of the switch. */
  const PackageIcon := "\U{1F4E6}"

  /** `getIconForType`: the switch names text, image, pdf and file; hashed text
      falls to the default icon. */
  function IconForType(kind: Kind): (icon: string)
    ensures icon == PackageIcon <==> kind == HashedText
    ensures icon in {TextIcon, ImageIcon, PdfIcon, FileIcon, PackageIcon}
  {
    match kind
    case Text => TextIcon
    case Image => ImageIcon
    case Pdf => PdfIcon
    case File => FileIcon
    case _ => PackageIcon
  }

  /** The five kinds are shown with five different icons. */
  lemma IconsDistinct(k1: Kind, k2: Kind)
    requires k1 != k2
    ensures IconForType(k1) != IconForType(k2)
  {
  }

  const UploadsPrefix := "/uploads/"

  /** `saveFile` (the path it returns): "/uploads/<token>-<name>", where `token`
      stands for the fresh uuid. The reference carries the upload prefix, ends
      with the original file name, and the token can be read back from it. */
  function UploadReference(token: string, fileName: string): (ref: string)
    ensures |ref| == |UploadsPrefix| + |token| + 1 + |fileName|
    ensures StartsWith(ref, UploadsPrefix)
    ensures ref[|ref| - |fileName|..] == fileName
    ensures ref[|UploadsPrefix|..|UploadsPrefix| + |token|] == token
    ensures ref[|UploadsPrefix| + |token|] == '-'
  {
    UploadsPrefix + token + "-" + fileName
  }

  /** `detectFileType`: total, never a text kind; a type starting with `image/` is an image, exactly
      `application/pdf` is a pdf, anything else is a file. */
  function DetectFileType(mimeType: string): (kind: Kind)
    ensures kind in {Image, Pdf, File}
    ensures kind == Image <==> StartsWith(mimeType, "image/")
    ensures kind == Pdf <==> mimeType == "application/pdf"
  {
    if StartsWith(mimeType, "image/") then
      assert mimeType[0] == 'i';
      Image
    else if mimeType == "application/pdf" then Pdf
    else File
  }
}
