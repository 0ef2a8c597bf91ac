/** Classification of a link by the service it points to. */
module Platforms {
  import opened Items
  import opened Text

  /** Case-sensitive substring tests in priority order: YouTube, TikTok, Instagram. */
  function GetPlatform(url: string): (r: Platform)
    ensures r == YouTube <==> HasSubstring(url, "youtube") || HasSubstring(url, "youtu.be")
    ensures r == TikTok <==>
      !HasSubstring(url, "youtube") && !HasSubstring(url, "youtu.be") && HasSubstring(url, "tiktok")
    ensures r == Instagram <==>
      !HasSubstring(url, "youtube") && !HasSubstring(url, "youtu.be") && !HasSubstring(url, "tiktok")
      && HasSubstring(url, "instagram")
    ensures r == Other <==>
      !HasSubstring(url, "youtube") && !HasSubstring(url, "youtu.be") && !HasSubstring(url, "tiktok")
      && !HasSubstring(url, "instagram")
  {
    ContainsIffOccurs(url, "youtube");
    ContainsIffOccurs(url, "youtu.be");
    ContainsIffOccurs(url, "tiktok");
    ContainsIffOccurs(url, "instagram");
    if Contains(url, "youtube") || Contains(url, "youtu.be") then YouTube
    else if Contains(url, "tiktok") then TikTok
    else if Contains(url, "instagram") then Instagram
    else Other
  }
}
