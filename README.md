# Player page feed and chat logic, in Dafny

This project models the feed and chat logic of the FC Wolves player page (`js/player.js`).
That logic sits inside the page's event handlers:

- publishing a post;
- the newest-first post list;
- the like toggle;
- appending a comment;
- sending to the general channel and to private channels;
- the oldest-first channel views;
- the private-channel key;
- the peer search.

The store's collections become Dafny values. `posts` is a `map` from post key to `Post`.
`generalChat` is a `map` from push key to message, and `privateChats` is a `map` from channel key
to such a map. Loading a collection means reading the field, and saving it means assigning the
whole map back. The operations the page runs step by step on a loaded collection are methods of
two classes: `Feed.PostStore` (publish, like, comment) and `Chat.ChatStore` (general and private
send). Each method is proved against a pure function of the old state. The expressions (post and
message construction, `sort().join("_")`, the `Object.entries`/`Object.values` views, the player
filter) are functions, and lemmas state what the source promises about them.

Modules, one per file:

- `Wrappers`: `Option`, used for the fields that may be missing from stored data.
- `Text`: ECMAScript `trim`, with its exact white-space set. `toLowerCase`, restricted to ASCII. `includes`.
- `Sorting`: `Array.prototype.sort` with a numeric comparator. ECMAScript requires this sort to be
  stable, so it is modelled as a stable insertion sort. The lemmas prove it sorted, a permutation,
  and stable.
- `Identity`: the user record, JavaScript's default string order, and the channel key `ChatId`.
- `Feed`: posts, the like toggle, comments, the post list, and `PostStore`.
- `Chat`: chat messages, the channel view, and `ChatStore`.
- `PeerSearch`: `searchPlayers`.

Inputs the page takes from its environment are parameters:

- the current user;
- the text-box contents;
- the clock (`now`, an integer timestamp);
- `generateId()`;
- the key the store assigns to a pushed record.

Points where the code behaves differently from what one might expect, all modelled as the code has them:

- The like counter is incremented and decremented (floored at 0). It is not recomputed from
  `likedBy`. The model proves that a consistent post (`likes == |likedBy|`, no duplicate likers)
  stays consistent.
- An empty comment or chat message is dropped silently. Only an empty post shows an error.
- `sendPrivateMessage` receives the channel key as an argument. `startPrivateChat` computed that
  key earlier as `ChatId(current user, peer)`.
- The post list is non-increasing by timestamp. Equal timestamps keep their entry order. It is not
  strictly descending.
- The channel key identifies the pair of players only when codes do not contain `_`. Nothing in
  the page enforces that. `SeparatorInCodeCollides` shows two different pairs with the same key.

## Model

| member | source | states |
|---|---|---|
| `Text.Trim` | js/player.js:119 | `trim()` returns the slice of the input between its leading and trailing white space. It is empty exactly when the input is all white space. |
| `Text.ContainsIff` | js/player.js:359 | `includes` holds exactly when the term occurs as a contiguous substring at some index. |
| `Sorting.SortByCorrect` | js/player.js:153-154 | The comparator sort returns a sorted permutation of its input. |
| `Sorting.SortByStable` | js/player.js:154 | The sort is stable: for every key, the elements with that key keep their input order. |
| `Identity.ChatIdSymmetric` | js/player.js:381 | `[a, b].sort().join("_")` is the same for (a, b) and (b, a), so both players open the same channel. |
| `Identity.ChatIdShape` | js/player.js:381 | The key is the smaller code, `_`, then the larger code, and the two parts are the two participants. |
| `Identity.ChatIdDeterminesPair` | js/player.js:381 | For codes without `_`, equal keys mean the same unordered pair of players. |
| `Identity.ChatIdCollisionFree` | js/player.js:381 | For codes without `_`, one player talking to two different players gets two different keys. |
| `Identity.SeparatorInCodeCollides` | js/player.js:381 | With `_` inside a code, the pairs ("a_b", "c") and ("a", "b_c") share the key "a_b_c". |
| `Feed.NewPost` | js/player.js:118-134 | An all-white-space text yields no post. Otherwise the post carries the user's name and code, the trimmed text, the given id and time, 0 likes, no likers and no comments, and it is consistent. |
| `Feed.PostStore.Publish` | js/player.js:118-137 | Publishing writes the new post under its push key and nothing else. An empty trimmed text writes nothing. Consistency of the collection is kept. |
| `Feed.IndexOf` | js/player.js:196 | `indexOf` returns -1 exactly when the code is absent; otherwise the first index holding it. |
| `Feed.RemoveFirstCount` | js/player.js:201 | Removing a code takes exactly one occurrence out of the list (as a multiset), so the length drops by one when the code was present. |
| `Feed.RemoveFirstAt` | js/player.js:196-201 | `splice(indexOf(code), 1)` equals removing the first occurrence. |
| `Feed.RemoveFirstNoDuplicates` | js/player.js:201 | In a list without duplicates, removal leaves no duplicates and leaves the code absent. |
| `Feed.ToggleLikeCases` | js/player.js:191-203 | Three cases, one per branch of the source. An absent code is appended and the count rises by 1. A present code loses one occurrence and the count becomes `max(0, likes - 1)`. All other fields are unchanged. Missing `likes` and `likedBy` read as 0 and empty. |
| `Feed.ToggleLikeConsistent` | js/player.js:196-203 | If `likes` equals the length of `likedBy` and `likedBy` has no duplicates, both still hold after a toggle. |
| `Feed.ToggleLikeFlips` | js/player.js:196-202 | On a consistent post, a toggle flips whether the user is among the likers. |
| `Feed.ToggleLikeTwice` | js/player.js:196-202 | Two toggles by the same user restore the count, the multiset of likers and every other field. When the user had not liked the post, the exact list is restored. |
| `Feed.ToggleLikeParity` | js/player.js:196-202 | After n toggles by one user, the liked state is flipped exactly when n is odd, and the post stays consistent throughout. |
| `Feed.PostStore.LikePost` | js/player.js:188-207 | An unknown post id writes nothing. Otherwise that one post is replaced by its toggle and every other post is unchanged. Consistency of the collection is kept. |
| `Feed.WithComment` | js/player.js:250-257 | Appending a comment keeps the earlier comments first and puts the new one last. A missing list counts as empty. No other field changes, and consistency is kept. |
| `Feed.PostStore.AddComment` | js/player.js:242-258 | A write happens exactly when the trimmed text is non-empty and the post exists. It appends one comment with the user's name and the trimmed text; all other posts are unchanged. |
| `Feed.PostListView` | js/player.js:152-159 | For an enumeration of the map's entries, the list holds each entry exactly once with its key as `id`, and only such entries. It is non-increasing by timestamp, ties keep entry order, and it is empty exactly when the map is. |
| `Chat.NewGeneralMessage` | js/player.js:293-304 | An all-white-space text yields no message. Otherwise the message is a general one with the user's name and code, the trimmed text and the time. |
| `Chat.ChatStore.SendGeneral` | js/player.js:293-307 | Sending pushes the message into `generalChat` under its key, or writes nothing for empty text. Private channels are untouched. |
| `Chat.NewPrivateMessage` | js/player.js:407-419 | An all-white-space text yields no message. Otherwise the message carries sender name and code, the receiver's name, the channel key, the trimmed text and the time. |
| `Chat.ChatStore.SendPrivate` | js/player.js:407-422 | Sending pushes the message into channel `chatId` only (a fresh channel starts empty), or writes nothing for empty text. Every other channel and the general channel are untouched. |
| `Chat.MessageViewOrdered` | js/player.js:321-323 | The channel view is a permutation of the snapshot's values, non-decreasing by timestamp, with ties in snapshot order. The private view at js/player.js:438 uses the same expression. |
| `PeerSearch.SearchTerm` | js/player.js:348 | The trimmed, lower-cased term is empty exactly when the query is all white space. |
| `PeerSearch.FilterPlayers` | js/player.js:357-361 | The filter keeps an order-preserving subsequence of the roster. Each kept player matches (name contains the term, code differs from the user's). Each matching player appears as often as in the roster, and no other player appears. |
| `PeerSearch.SearchPlayers` | js/player.js:347-366 | A blank query gives the cleared result. A query nobody matches gives the distinct "no results" marker. Otherwise the result is the non-empty filtered list. |
| `PeerSearch.SearchFoundIff` | js/player.js:358-361 | A player is found exactly when it is in the roster, its code is not the user's, and the term occurs in its lower-cased name. |

## Left out

- Rendering is not modelled: `showTab`, `showChatSection`, the team, profile and comment views (`showComments`), the HTML templates, scrolling and the `hasEventListener` guard flags. These set up the page and have no logic to state.
- The login redirect and the `localStorage` read at start-up are not modelled. The current user is a parameter.
- `FCWolvesUtils` is not part of this model. `loadData` and `saveData` are reads and writes of the store fields. `pushData` is an update of the map at a key given as a parameter; the model does not assume that key is fresh. `generateId` is a parameter, and `showMessage` and `formatDate` are display only.
- Store failures (the `try`/`catch` branches) are not modelled: every modelled write succeeds.
- The live subscriptions (`db.ref(...).on("value", ...)`) are not modelled. Only the view computed from one snapshot is.
- Concurrency is not modelled. Each method is one client's whole read-modify-write step. Two clients interleaving (the last writer of the whole `posts` map wins) is not represented.
- Timestamps are integers. ISO strings, `new Date()` and date parsing are not modelled.
- `Object.entries` and `Object.values` are inputs, not computed from the map. Their property order is not modelled. `Feed.PostListView` holds for any enumeration of the map.
- Lower-casing covers ASCII letters only. Full Unicode `toLowerCase`, which can change string length, is not modelled.
- `Identity.LexLe` compares characters as Unicode scalar values. JavaScript compares UTF-16 code units; the two orders differ only between supplementary-plane characters and U+E000–U+FFFF.
- Stored field values of an unexpected type are not modelled: a non-numeric `likes`, a `likedBy` that is not an array, a stored post that is falsy. `likes` is an optional integer.
- The players' `number` field is not modelled, because only the display uses it.
