/**
  The static tables of the autofill core (constants.ts): the keyword dictionary
  of each user field, the positive-answer keywords, the fuzzy-search settings
  and the score thresholds, with the well-formedness facts the rest of the
  model relies on.
*/
module Constants {
  import opened JsString
  import opened TextNormalizer
  import OptionsStorage

  /** An ordered table from field id to its keywords, in declaration order
      (the iteration order of `Object.entries`). */
  type KeywordTable = seq<(string, seq<string>)>

  const TELEGRAM_KEYWORDS: seq<string> := [
    "telegram", "tele", "tg", "telegram handle", "telegram id", "telegram username", "telegram account",
    "텔레그램", "텔레", "텔그램"]
  const TWITTER_KEYWORDS: seq<string> := [
    "twitter", "twit", "x", "x handle", "twitter handle", "twitter id", "twitter username",
    "twitter account", "x account", "x id", "x username", "트위터", "엑스"]
  const DISCORD_KEYWORDS: seq<string> := [
    "discord", "disc", "discord handle", "discord id", "discord username", "discord account",
    "discord tag", "디스코드", "디코"]
  const EMAIL_KEYWORDS: seq<string> := [
    "email", "e-mail", "mail", "email address", "email id", "your email", "contact email",
    "이메일", "메일", "이메일 주소"]
  const YOUTUBE_KEYWORDS: seq<string> := [
    "youtube", "yt", "youtube channel", "youtube handle", "youtube account", "youtube url",
    "youtube link", "channel url", "유튜브", "유튜브 채널"]
  const PHONE_KEYWORDS: seq<string> := [
    "phone", "phone number", "mobile", "mobile number", "cell", "cell phone", "telephone", "tel",
    "contact number", "전화번호", "핸드폰", "휴대폰", "연락처"]
  const EVM_WALLET_KEYWORDS: seq<string> := [
    "wallet", "evm", "evm wallet", "evm address", "ethereum", "eth", "eth wallet", "eth address",
    "ethereum wallet", "ethereum address", "wallet address", "metamask", "crypto wallet",
    "지갑", "지갑 주소", "evm 지갑", "이더리움", "이더리움 지갑"]
  const SOLANA_WALLET_KEYWORDS: seq<string> := [
    "solana", "sol", "sol wallet", "sol address", "solana wallet", "solana address", "phantom",
    "solflare", "솔라나", "솔라나 지갑"]

  /** `FIELD_KEYWORDS`. */
  const FIELD_KEYWORDS: KeywordTable := [
    (OptionsStorage.TELEGRAM, TELEGRAM_KEYWORDS),
    (OptionsStorage.TWITTER, TWITTER_KEYWORDS),
    (OptionsStorage.DISCORD, DISCORD_KEYWORDS),
    (OptionsStorage.EMAIL, EMAIL_KEYWORDS),
    (OptionsStorage.YOUTUBE, YOUTUBE_KEYWORDS),
    (OptionsStorage.PHONE, PHONE_KEYWORDS),
    (OptionsStorage.EVM_WALLET, EVM_WALLET_KEYWORDS),
    (OptionsStorage.SOLANA_WALLET, SOLANA_WALLET_KEYWORDS)
  ]

  /** `POSITIVE_KEYWORDS`. */
  const POSITIVE_KEYWORDS: seq<string> := [
    "yes", "y", "ok", "okay", "agree", "accept", "confirm", "i agree", "i accept", "i confirm", "true",
    "예", "네", "동의", "동의합니다", "동의함", "수락", "확인", "승인"
  ]

  /** The Fuse.js options the fuzzy tier is configured with. */
  datatype FuseOptions = FuseOptions(
    threshold: real,
    keys: seq<string>,
    includeScore: bool,
    isCaseSensitive: bool,
    ignoreLocation: bool,
    minMatchCharLength: nat)

  /** `FUSE_OPTIONS`. */
  const FUSE_OPTIONS: FuseOptions := FuseOptions(0.4, ["keyword"], true, false, true, 2)

  // MATCH_SCORE_THRESHOLDS
  const EXACT_THRESHOLD: real := 0.0
  const PARTIAL_THRESHOLD: real := 0.2
  const MAX_THRESHOLD: real := 0.4

  /** No two equal strings in a list. */
  predicate NoDuplicates(words: seq<string>) {
    forall i, j :: 0 <= i < j < |words| ==> words[i] != words[j]
  }

  /** Each string starts with a character normalization keeps (ASCII letter or
      digit, `_` or a Hangul syllable). */
  predicate StartsWithKeptLetter(words: seq<string>) {
    forall i :: 0 <= i < |words| ==> |words[i]| > 0 && (IsWordChar(words[i][0]) || IsHangulSyllable(words[i][0]))
  }

  /** A dictionary fit for the matcher: distinct field ids, each with at least
      one keyword, no keyword repeated within a field, every keyword non-empty
      and surviving normalization. */
  predicate WellFormedTable(table: KeywordTable) {
    && (forall i, j :: 0 <= i < j < |table| ==> table[i].0 != table[j].0)
    && (forall i :: 0 <= i < |table| ==> |table[i].1| > 0)
    && (forall i :: 0 <= i < |table| ==> NoDuplicates(table[i].1))
    && (forall i :: 0 <= i < |table| ==> StartsWithKeptLetter(table[i].1))
  }

  /** `FIELD_KEYWORDS` is well formed. */
  lemma FieldKeywordsWellFormed()
    ensures WellFormedTable(FIELD_KEYWORDS)
    ensures |FIELD_KEYWORDS| == 8
  {
    TelegramKeywordsWellFormed();
    TwitterKeywordsWellFormed();
    DiscordKeywordsWellFormed();
    EmailKeywordsWellFormed();
    YoutubeKeywordsWellFormed();
    PhoneKeywordsWellFormed();
    EvmWalletKeywordsWellFormed();
    SolanaWalletKeywordsWellFormed();
  }

  /** A list whose entries pairwise differ in length or in their first, second
      or last character has no repeats. */
  lemma {:induction false} DistinctByShapes(words: seq<string>)
    requires forall a, b :: 0 <= a < b < |words| ==>
      |words[a]| != |words[b]|
      || (|words[a]| > 1 && |words[b]| > 1
          && (|| words[a][0] != words[b][0] || words[a][1] != words[b][1]
              || words[a][|words[a]| - 1] != words[b][|words[b]| - 1]))
    ensures NoDuplicates(words)
  {
    forall a, b | 0 <= a < b < |words|
      ensures words[a] != words[b]
    {
      DistinctByShape(words[a], words[b]);
    }
  }

  lemma TelegramKeywordsWellFormed()
    ensures NoDuplicates(TELEGRAM_KEYWORDS) && StartsWithKeptLetter(TELEGRAM_KEYWORDS) && |TELEGRAM_KEYWORDS| > 0
  {
    DistinctByShapes(TELEGRAM_KEYWORDS);
  }

  lemma TwitterKeywordsWellFormed()
    ensures NoDuplicates(TWITTER_KEYWORDS) && StartsWithKeptLetter(TWITTER_KEYWORDS) && |TWITTER_KEYWORDS| > 0
  {
    DistinctByShapes(TWITTER_KEYWORDS);
  }

  lemma DiscordKeywordsWellFormed()
    ensures NoDuplicates(DISCORD_KEYWORDS) && StartsWithKeptLetter(DISCORD_KEYWORDS) && |DISCORD_KEYWORDS| > 0
  {
    DistinctByShapes(DISCORD_KEYWORDS);
  }

  lemma EmailKeywordsWellFormed()
    ensures NoDuplicates(EMAIL_KEYWORDS) && StartsWithKeptLetter(EMAIL_KEYWORDS) && |EMAIL_KEYWORDS| > 0
  {
    DistinctByShapes(EMAIL_KEYWORDS);
  }

  lemma YoutubeKeywordsWellFormed()
    ensures NoDuplicates(YOUTUBE_KEYWORDS) && StartsWithKeptLetter(YOUTUBE_KEYWORDS) && |YOUTUBE_KEYWORDS| > 0
  {
    DistinctByShapes(YOUTUBE_KEYWORDS);
  }

  lemma PhoneKeywordsWellFormed()
    ensures NoDuplicates(PHONE_KEYWORDS) && StartsWithKeptLetter(PHONE_KEYWORDS) && |PHONE_KEYWORDS| > 0
  {
    DistinctByShapes(PHONE_KEYWORDS);
  }

  lemma EvmWalletKeywordsWellFormed()
    ensures NoDuplicates(EVM_WALLET_KEYWORDS) && StartsWithKeptLetter(EVM_WALLET_KEYWORDS) && |EVM_WALLET_KEYWORDS| > 0
  {
    DistinctByShapes(EVM_WALLET_KEYWORDS);
  }

  lemma SolanaWalletKeywordsWellFormed()
    ensures NoDuplicates(SOLANA_WALLET_KEYWORDS) && StartsWithKeptLetter(SOLANA_WALLET_KEYWORDS) && |SOLANA_WALLET_KEYWORDS| > 0
  {
    DistinctByShapes(SOLANA_WALLET_KEYWORDS);
  }

  /** Two strings differ when their lengths differ or they differ in their
      first, second or last character. */
  lemma DistinctByShape(u: string, v: string)
    ensures (|| |u| != |v|
             || (|u| > 1 && |v| > 1 && (u[0] != v[0] || u[1] != v[1] || u[|u| - 1] != v[|v| - 1])))
            ==> u != v
  {
  }

  /** Every keyword normalizes to a non-empty string. */
  lemma KeywordsNormalizeNonEmpty(table: KeywordTable, i: nat, j: nat)
    requires WellFormedTable(table)
    requires i < |table| && j < |table[i].1|
    ensures |NormalizeText(table[i].1[j])| > 0
  {
    NormalizeNonEmpty(table[i].1[j]);
  }

  /** `POSITIVE_KEYWORDS` has at least five distinct entries, including the basic
      English and Korean yes-words. */
  lemma PositiveKeywordsShape()
    ensures |POSITIVE_KEYWORDS| >= 5
    ensures NoDuplicates(POSITIVE_KEYWORDS)
    ensures forall w :: w in ["yes", "y", "ok", "예", "네", "동의"] ==> w in POSITIVE_KEYWORDS
  {
    forall a, b | 0 <= a < b < |POSITIVE_KEYWORDS|
      ensures POSITIVE_KEYWORDS[a] != POSITIVE_KEYWORDS[b]
    {
      DistinctByShape(POSITIVE_KEYWORDS[a], POSITIVE_KEYWORDS[b]);
    }
  }

  /** The thresholds are ordered, lie in [0, 1], and the cut-off equals the
      fuzzy-search threshold; the fuzzy search ignores case and position and
      needs two matching characters. */
  lemma ThresholdsAndFuseOptions()
    ensures EXACT_THRESHOLD == 0.0 < PARTIAL_THRESHOLD < MAX_THRESHOLD <= 1.0
    ensures MAX_THRESHOLD == FUSE_OPTIONS.threshold
    ensures 0.0 <= FUSE_OPTIONS.threshold <= 1.0
    ensures !FUSE_OPTIONS.isCaseSensitive && FUSE_OPTIONS.ignoreLocation && FUSE_OPTIONS.includeScore
    ensures FUSE_OPTIONS.minMatchCharLength == 2 && "keyword" in FUSE_OPTIONS.keys
  {
  }
}
