/**
 The fixed upstream the proxy forwards to, and the two values the handler
 derives from it with `new URL(TARGET_API_URL)`.
 */
module Target {

  const TARGET_API_URL := "https://generativelanguage.googleapis.com"

  /** `new URL(TARGET_API_URL).hostname`. */
  const TARGET_HOSTNAME := "generativelanguage.googleapis.com"

  /** `new URL(TARGET_API_URL).origin`: scheme and host, which for this URL is the URL itself. */
  const TARGET_ORIGIN := "https://generativelanguage.googleapis.com"
}
