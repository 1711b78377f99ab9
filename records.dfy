/*
 * The raw records the rebuild pipeline reads: a post with its author, its
 * nested comment thread and its reposts, already parsed from one line of
 * JSON. Only the fields the pipeline reads are kept.
 */
module Records {

  datatype Option<+T> = None | Some(value: T) {
    function GetOr(default: T): T {
      match this
      case Some(v) => v
      case None => default
    }
  }

  /** Comment, repost and post identifiers, compared by value. */
  type Id = int

  /** A user id after the pipeline's `str(...)` conversion. */
  type UserId = string

  datatype User = User(id: UserId, screenName: string)

  /** A JSON field value as far as the pipeline cares: a string, or anything else. */
  datatype TextValue = Str(s: string) | NotAString

  /**
   * A comment. `replyTo` is the id under `reply_comment` (None when the key
   * or its id is missing); `subs` is the nested `comments` list (empty when
   * missing).
   */
  datatype Comment = Comment(id: Id, user: User, text: TextValue, replyTo: Option<Id>, subs: seq<Comment>)

  /** A repost; `textLaw` and `textRaw` are the optional `text_law` and `text_raw` keys. */
  datatype Repost = Repost(id: Id, user: User, textLaw: Option<TextValue>, textRaw: Option<TextValue>)

  /**
   * A post. `created` is what the timestamp parser made of `created_at`:
   * seconds since some fixed epoch, or None when no format matched.
   */
  datatype Post = Post(id: Id, author: User, text: Option<TextValue>, created: Option<int>,
                       comments: seq<Comment>, reposts: seq<Repost>)

  /** user id -> interests, as the profile loader hands it over. */
  type ProfileMap = map<UserId, seq<string>>

  /** `profile_map.get(uid, {}).get("interests", [])` */
  function Interests(profiles: ProfileMap, uid: UserId): seq<string> {
    if uid in profiles then profiles[uid] else []
  }

  /** A repost's text: `text_law` first, then `text_raw`, then the empty string. */
  function RepostText(r: Repost): (t: TextValue)
    ensures r.textLaw.Some? ==> t == r.textLaw.value
    ensures r.textLaw.None? ==> t == r.textRaw.GetOr(Str(""))
  {
    if r.textLaw.Some? then r.textLaw.value
    else if r.textRaw.Some? then r.textRaw.value
    else Str("")
  }
}
