/** The reply generator's module-level constants. */
module Settings {

  const DONATION_ADDRESS: string := "0x69cd21CEAFDF0aC0859Af8Ff2a3eBe0B2025db10"

  /** DashScope's OpenAI-compatible endpoint. */
  const DEFAULT_API_BASE: string := "https://dashscope.aliyuncs.com/compatible-mode/v1"
  const CHAT_COMPLETIONS_PATH: string := "/chat/completions"

  const DEFAULT_MODEL: string := "qwen-max"

  /** Advisory bounds on the reply length, in characters. */
  const REPLY_MIN_LEN: nat := 80
  const REPLY_MAX_LEN: nat := 200

  const MAX_RETRIES: int := 3
  /** Base of the exponential backoff, in seconds. */
  const RETRY_BACKOFF_BASE: nat := 2

  const SYSTEM_PROMPT: string := "You are a helpful assistant that strictly follows instructions."

  /** Fixed request parameters of every call. */
  const MAX_TOKENS: nat := 1024
  const TIMEOUT_SECONDS: nat := 30
}
