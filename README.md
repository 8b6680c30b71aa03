# youtube-rss: the URL validator and the upload helpers, in Dafny

This project models the pure logic in `utils.js` of youtube-rss, a command-line
tool that downloads the audio of a YouTube video, uploads it to a Google Cloud
Storage bucket and is meant to republish a podcast feed. Three pieces of that
file compute values instead of doing I/O, and they are what is modelled here:

- `isYouTubeURL` (module `YouTubeUrl`, file `youtube_url.dfy`). It tests a string
  against the anchored regular expression `^(https?:\/\/)?(www\.)?(youtube\.com|youtu\.be)\/.+`.
  `Matches` gives the language of that test declaratively: some split of the
  string into a scheme part, a `www.` part, a host, a `/` and one character
  that is not a JavaScript line terminator. `IsYouTubeUrl` is a hand-written
  greedy matcher, and its contract states that it accepts exactly the strings
  `Matches` describes. The pattern is unambiguous: its three optional or
  alternative steps each start with a different letter (`h`, `w`, `y`). So the
  greedy matcher never has to backtrack (`GreedyFindsSplit`, `PrefixUnique`).
  On this the lemmas prove the following:
  - only the start is anchored;
  - the verdict depends only on the character after the `/`;
  - the dots are literal;
  - concrete accepted and rejected inputs.
- The choice of file to upload in `uploadMP3` (module `Mp3Upload`, file
  `mp3_upload.dfy`). This is the first directory entry ending in `.mp3`, or
  JavaScript's `undefined`, modelled as `None`. It comes with the path
  `${cwd}/${name}` handed to the storage client.
- The bucket name `${name}-youtube-rss` built by `connectToGoogleDrive` (module
  `Bucket`, file `bucket.dfy`). It comes with its inverse `OwnerName` and the
  bucket name that `uploadMP3` has fixed in its code.

`wrappers.dfy` holds the `Option` type shared by the modules.

Three consequences of the code that the model makes explicit:
- Nothing lowercases the user's name: `connectToGoogleDrive` puts it into the
  template as typed (utils.js:105), and `BucketNameInjective` proves that `Levi`
  and `levi` get different bucket names.
- A path that starts with `\n`, `\r`, U+2028 or U+2029 is refused, because the
  regular expression's `.` does not match a line terminator (`PathCharDecides`,
  `RejectedScenarios`).
- No feed is fetched, merged or republished, because `addToRSS` and `initRSS`
  are empty (utils.js:92-96); so no feed is modelled.

`uploadMP3` always uploads to the bucket `levi-youtube-rss` written into its code
(utils.js:74), whatever name `connectToGoogleDrive` used to create a bucket
(utils.js:105). `UploadBucketOwner` proves that the two agree only for the name `levi`.

## Model

| member | source | states |
|---|---|---|
| `YouTubeUrl.IsYouTubeUrl` | utils.js:98-101 | the validator accepts a string exactly when it is in the language of the anchored pattern (`Matches`): an optional `http://`/`https://`, an optional `www.`, `youtube.com` or `youtu.be`, a `/`, and a character that is not a line terminator |
| `YouTubeUrl.SchemeEnd` | utils.js:99 | the greedy `(https?:\/\/)?` step consumes a prefix that is empty, `http://` or `https://` |
| `YouTubeUrl.WwwEnd` | utils.js:99 | the greedy `(www\.)?` step consumes the empty string or `www.` and stays inside the string |
| `YouTubeUrl.GreedyFindsSplit` | utils.js:99 | whenever some split into scheme, `www.`, host and `/` exists, it is the one the greedy steps choose, so no backtracking is needed |
| `YouTubeUrl.PrefixUnique` | utils.js:99 | a string has at most one split into scheme, `www.` part, host and `/` |
| `YouTubeUrl.AcceptedExtends` | utils.js:99 | there is no `$`: appending anything to an accepted string keeps it accepted |
| `YouTubeUrl.PathCharDecides` | utils.js:99 | after a scheme part, a `www.` part, a host and `/`, the string is accepted exactly when at least one more character follows and the first one is not a line terminator; what follows that character does not matter |
| `YouTubeUrl.AcceptedFirstChar` | utils.js:99 | an accepted string is non-empty and starts with `h`, `w` or `y`, so the empty string and other hosts such as `m.youtube.com` or `vimeo.com` are refused |
| `YouTubeUrl.NoHostRejected` | utils.js:99 | after a scheme part and a `www.` part, text that starts with `y` but with neither `youtube.com` nor `youtu.be` is refused |
| `YouTubeUrl.LookalikeRejected` | utils.js:99 | the dots are literal: `youtube?com`, `youtu?be` and `www?` with any character other than `.` in place of the dot are refused, whatever the scheme part and whatever follows |
| `YouTubeUrl.AcceptedScenarios` | utils.js:98-101 | `https://youtu.be/abc123` is in the language, and so is `youtube.com/` followed by a space and then a newline |
| `YouTubeUrl.RejectedScenarios` | utils.js:98-101 | not in the language: `not a url`; the empty string; `https://www.youtube.com/`; `youtube.com/` directly followed by a newline; `youtubeXcom/abc`; `wwwXyoutube.com/abc`; `m.youtube.com/abc`; `vimeo.com/abc` |
| `Mp3Upload.FindMp3` | utils.js:78 | the result is the entry at the first index whose name ends with `.mp3`, and it is `None` exactly when no entry does |
| `Mp3Upload.FindMp3Concat` | utils.js:78 | the search follows the listing order: in `a + b` the first part wins whenever it contains an `.mp3` entry |
| `Mp3Upload.UploadPath` | utils.js:79 | the upload path is the working directory, a `/`, and the chosen name or the text `undefined` |
| `Mp3Upload.UploadPathInjective` | utils.js:79 | in one directory, different chosen names give different upload paths |
| `Mp3Upload.UploadPathOfListing` | utils.js:77-79 | when an `.mp3` entry was found, the upload path ends in `.mp3`; when none was, the path is the one an entry named `undefined` would have |
| `Bucket.BucketName` | utils.js:105 | the bucket name is the user's name unchanged as its first part, followed by exactly `-youtube-rss` |
| `Bucket.OwnerNameInverse` | utils.js:105 | taking `-youtube-rss` off a bucket name gives `name` back exactly when the bucket is the one derived from `name` |
| `Bucket.BucketNameInjective` | utils.js:105 | two names give the same bucket name only if they are equal, so nothing lowercases or otherwise normalises the name |
| `Bucket.UploadBucketOwner` | utils.js:74 | the bucket fixed in `uploadMP3`, `levi-youtube-rss`, is the one derived from the name `levi` and from no other name |

## Left out

- The interactive prompts in `setup` and `getUrl`, and the loop that prompts again until `isYouTubeURL` accepts (utils.js:9-46). These are user-interface code, as is the menu in main.js.
- The audio download through `youtube-dl-exec` and its progress estimate (utils.js:48-65). These run an external tool.
- Bucket creation and uploads through the Google Cloud Storage client (utils.js:67-90, 103-122). These are network calls. The model keeps only the names and paths they receive.
- `readdirSync`, `unlinkSync` and the `ora` spinner (utils.js:77, 80-85). These are file-system and terminal I/O. The directory listing and the working directory are parameters of `FindMp3` and `UploadPath`.
- `addToRSS` and `initRSS` (utils.js:92-96). Their bodies are empty, so there is no feed behaviour to model.
- The conversion of a non-string argument to a string inside `RegExp.prototype.test` (for example `undefined` becoming `"undefined"`). The validator's input is modelled as a string.
- JavaScript strings are sequences of UTF-16 code units; here a string is a sequence of Unicode scalar values. They can differ only for a character outside the Basic Multilingual Plane right after the `/`. JavaScript sees a surrogate there, which is not a line terminator, so the verdict is the same. Lone surrogates cannot be written in this model.
