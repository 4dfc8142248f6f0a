/**
 * The frame size of the video, chosen from the platform picked in the
 * interface: portrait for TikTok, landscape for YouTube, square otherwise.
 */
module Layout {
  import opened PyStr

  /** A frame size in pixels. */
  datatype Frame = Frame(width: nat, height: nat)

  /** The platform choices offered by the interface, each naming its aspect ratio. */
  const PlatformChoices: seq<string> := [
    "TikTok – Vertical 9:16",
    "YouTube – Horizontal 16:9",
    "Facebook – Carré 1:1"
  ]

  /**
   * The frame for a platform label, decided by its prefix: a label starting
   * with "TikTok" gets a portrait frame, else one starting with "YouTube" a
   * landscape frame, and any other a square one; the short side is always
   * 1080 pixels.
   */
  function FrameFor(platform: string): (f: Frame)
    ensures f.width <= f.height <==> StartsWith(platform, "TikTok") || !StartsWith(platform, "YouTube")
    ensures f.width >= f.height <==> !StartsWith(platform, "TikTok")
    ensures (if f.width < f.height then f.width else f.height) == 1080
  {
    if StartsWith(platform, "TikTok") then Frame(1080, 1920)
    else if StartsWith(platform, "YouTube") then Frame(1920, 1080)
    else Frame(1080, 1080)
  }

  /** Every choice the interface offers gets a frame of the aspect ratio its label names. */
  lemma ChoicesGetTheirAspectRatio()
    ensures var tiktok, youtube, facebook := FrameFor(PlatformChoices[0]), FrameFor(PlatformChoices[1]), FrameFor(PlatformChoices[2]);
            16 * tiktok.width == 9 * tiktok.height
            && 9 * youtube.width == 16 * youtube.height
            && facebook.width == facebook.height
  {
    assert StartsWith(PlatformChoices[0], "TikTok");
    assert PlatformChoices[1][0] == 'Y' && StartsWith(PlatformChoices[1], "YouTube");
    assert PlatformChoices[2][0] == 'F';
  }
}
