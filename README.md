# Telegram media-relay bot: task registry, helpers and download-root safety

This project models the sequential core of a Telegram client bot. The bot takes video and photo-post URLs from chat
messages, fetches the media and relays it to a target chat or back to the user. It is modelled in three parts.

- **`ClientBot`** (`client_bot.dfy`) is the `TelegramVideoClient` registry.
  - `activeTasks` is a map from task id to record, and ids come from `taskCounter`.
  - `order` is the dictionary's iteration order.
  - Each chat handler is one atomic method. The answers of Telegram, the downloader and the allow-list file are its
    parameters.
  - The class invariant `Valid()` says three things: `order` lists exactly the keys, each once and in increasing
    order; every key is at most the counter; and keys are never reused.
  - The handlers state how records are created, advanced through `Info → Download → Upload`, and deleted. They also
    state what is sent and which files are handed to cleanup.
- **`Utils`** (`utils.dfy`) covers the pure helpers:
  - duration rendering;
  - filename sanitising;
  - Markdown escaping;
  - platform and spam classification of URLs;
  - the progress bar;
  - chat-id validation;
  - the allow-list set logic, including a small class for the load–modify–save of the users file.
- **`Downloader`** (`downloader.dfy`) covers the parts of the downloader about the download directory and metadata.
  - The file system is a `FileSystem` object. Its map sends normalised paths (component sequences) to `File` or
    `Dir`.
  - Paths inside the download root are compared by component prefix.
  - It also covers the guarded recursive delete, the ascent that finds the top temp directory, and the two cleanup
    loops.
  - It covers the TikTok photo-URL test, the choice of the downloaded file, and image filtering and sorting.
  - It covers the fallback TikTok metadata and the shaping of yt-dlp's info dictionary.

Supporting modules:
- `Text` (`text.dfy`) models the string operations Python provides: `in`, `lower()` on ASCII, `startswith`,
  `split(sep)[k]`, and `str(int)` with its inverse.
- `Sorting` (`sorting.dfy`) is a stable insertion sort with a string key, under Python's code-point order.
- `Wrappers` (`wrappers.dfy`) holds `Option`.

Where the code and its comments disagree, the model follows the code:
- `find_pending_task` says it finds the "most recent" pending task. It returns the first one in insertion order,
  which is the oldest (see `FindPendingTask`).
- `/download` has no photo-URL gate. A TikTok photo post sent to `/download` goes down the ordinary video-download
  path.
- A user may hold several pending tasks at once. Duplicate suppression only compares the new message's first URL.

## Model

| member | source | states |
|---|---|---|
| ClientBot.IsAllowedChat | client_bot.py:552-573 | A private chat (chat id equals sender id) is always allowed, and so is the numeric target chat. With a username target only private chats pass, because a string target never equals an integer chat id. Any other allowed chat is the numeric target. |
| ClientBot.IsAdmin | client_bot.py:541-550 | The user is admin iff ADMIN_USER_ID is present, non-zero and equal to the user. Admin implies the id is that value and is non-zero. |
| ClientBot.AdminIsAuthorized | client_bot.py:530-550 | Every admin passes `is_authorized`, whatever the environment list and the file contents. |
| ClientBot.TelegramVideoClient.constructor | client_bot.py:27-31 | The registry starts empty with counter 0, and the invariant holds. |
| ClientBot.TelegramVideoClient.HasLiveTaskFor | client_bot.py:392-396 | The loop answers true iff some record in the registry has that owner and that URL. |
| ClientBot.TelegramVideoClient.HandleMessage | client_bot.py:374-433 | Empty text, a command, a foreign chat and a URL-less message each change nothing. So do a duplicate first URL by the same user (DuplicateUrl iff that record exists), a spam first URL and a closed topic. Otherwise the counter goes up by one. Only a sent status reply stores `(sender, urls[0], Info)` under the new id. |
| ClientBot.TelegramVideoClient.ProcessVideoUrl | client_bot.py:601-655 | The counter goes up before anything else, and the new id exceeds every existing key, even when the reply fails. With a sent reply the record `(sender, url, Info, no action)` is added under the new id at the end of the order. A closed topic or a failed reply leaves the registry as it was. |
| ClientBot.TelegramVideoClient.ProcessVideoTask | client_bot.py:657-715 | A stored record is set to Info. Without video info it is popped. With info it keeps Info and gains its video info. When the status message cannot be edited, the record stays in Info without info, because the error handler's edit raises before the pop. An absent id changes nothing. |
| ClientBot.TelegramVideoClient.FindPendingTask | client_bot.py:522-528 | The result is None iff the user owns no record in stage Info. Otherwise it is such a record, and its id is the least such id, that is the first in insertion order. |
| ClientBot.UserTasksCount | client_bot.py:448-451 | The `user_tasks` list has exactly as many entries as the user has records. |
| ClientBot.TelegramVideoClient.CollectUserTasks | client_bot.py:448-451 | The loop builds the list of the user's ids in iteration order. |
| ClientBot.TelegramVideoClient.CancelListed | client_bot.py:458-474 | Every listed task is counted. Exactly the listed tasks whose edit succeeds are deleted, from both the map and the order. |
| ClientBot.TelegramVideoClient.HandleCancel | client_bot.py:435-476 | A foreign chat or an unauthorised user changes nothing. A user with no task gets NothingToCancel and no change. Otherwise the count is the number of the user's tasks. The registry loses exactly the user's tasks whose edit succeeded. Other users' records are untouched. Whenever the gate passes, the new registry is CancelEffect of the old one, the registry CancelStopsDownload and CancelStopsUpload start from. |
| ClientBot.FirstMissing | client_bot.py:726-733 | The first registry check that misses the record: every earlier check saw it. None iff every check saw it. |
| ClientBot.FirstMissingAt | client_bot.py:726-733 | A check that misses the record after checks that all saw it is the first miss. |
| ClientBot.AwaitDownload | client_bot.py:717-739 | The poll ends with a cancel iff some check made before the download completes misses the record. It then stops after exactly the checks up to the first such one. Otherwise every check is made and the executor's answer (a path, or its exception) is the result. |
| ClientBot.UncancelledDownload | client_bot.py:726-735 | When every check sees the record, the poll never cancels and hands back the executor's path. |
| ClientBot.AwaitUpload | client_bot.py:814-831 | `send_file` ends with a cancel iff some progress callback finds the record gone. It otherwise ends as the transfer does. Progress edits go out, in order, for exactly the callbacks before the first miss that have `total > 0` and an edit that works. A failing progress edit never changes the outcome. |
| ClientBot.CancelStopsDownload | client_bot.py:726-733 | A poll check that runs after the owner's `/cancel` removed the task (its edit succeeded) sees no record. So the download ends in a cancel, at that check or earlier. |
| ClientBot.CancelStopsUpload | client_bot.py:814-820 | The same for an upload: a progress callback after the owner's `/cancel` raises the cancel, and no callback from that one on runs to its end. |
| ClientBot.CancelSparesOthers | client_bot.py:458-474 | `/cancel` by another user, or one whose edit for this task failed, keeps the record, so that task's checks go on seeing it. |
| ClientBot.TransferFile | client_bot.py:743-812 | The upload helper raises the cancel iff its "uploading" edit goes through and a progress callback finds the record gone. It returns iff the edit after the transfer also goes through and there was no cancel. Otherwise it raises an error. The file is handed to cleanup after a return or a cancel. It is not handed over when an edit raises, because the error handler's edit raises before its cleanup. The transfer counts as delivered to the given destination iff the "uploading" edit went through and `send_file` completed. |
| ClientBot.TelegramVideoClient.RunTransfer | client_bot.py:834-890 | An absent id is a no-op. Otherwise Download is written with the action, then Upload iff the "downloading" edit went through and the poll produced a file, never backwards. When every status edit on the path goes through, the record is popped from map and order. That covers an empty or failed download, a cancel and every upload outcome. When an edit raises, the record stays with the last stage written, because the error handler's own edit raises before its pop. The file is handed to cleanup once iff Upload was reached and every edit went through. The helper's exit is a cancel iff Upload was reached, the "uploading" edit went through and a callback saw the record gone. The video is delivered to the given destination iff Upload was reached, the "uploading" edit went through and the upload completed. |
| ClientBot.TelegramVideoClient.AfterDownload | client_bot.py:856-890 | After the poll, the upload stage runs iff a file was produced, and only then is there a helper exit. A cancelled poll is popped (the cancel handler). A failed download is popped iff its notice (edit 1) goes through. The upload stage pops, cleans up and delivers as UploadStage states. Otherwise the record stays, in Upload when the upload stage ran and unchanged when it did not. |
| ClientBot.TelegramVideoClient.UploadStage | client_bot.py:866-878 | Stage Upload is written. The helper raises the cancel iff the "uploading" edit (edit 1) goes through and a callback saw the record gone. It returns iff the success or error edit also goes through. Unless the helper raised an error, the record is popped and the file handed to cleanup once. After an error the record stays in Upload and nothing is cleaned up. The video is delivered to the given destination iff the "uploading" edit went through and the upload completed. |
| ClientBot.TelegramVideoClient.HandleForwardActionDirect | client_bot.py:742-890 | The shared transfer with action Forward: the stage, pop and cleanup outcomes of RunTransfer, path by path. When an edit at the "uploading", success or error-message step raises, the record stays in Upload and the file is not cleaned up. The video is delivered to the target chat (TARGET_CHAT_ID) iff Upload was reached, the "uploading" edit went through and the upload completed. |
| ClientBot.TelegramVideoClient.HandleDownloadActionDirect | client_bot.py:892-1021 | The same as the forward action, with action 'user' and `send_video_to_user`. After a cancelled upload whose edits went through, the file is cleaned twice: once by the helper and once by the handler's cancel branch. After the other upload outcomes it is cleaned once, and not at all when an edit raises. The video is delivered, on the same condition, to the chat of the `user_id` it is given. |
| ClientBot.TelegramVideoClient.HandleForwardCommand | client_bot.py:478-496 | A foreign chat or an unauthorised user is ignored with no change (CommandIgnored iff the gate fails). NoPendingTask iff the gate passes and the sender has no task in Info, and then nothing changes. Otherwise the sender's oldest pending task goes through the forward action, starting at Download. Afterwards it is gone iff every status edit on its path went through. A delivery goes to the target chat. |
| ClientBot.TelegramVideoClient.HandleDownloadCommand | client_bot.py:498-520 | The same as `/forward`, through the download action, with no photo gate. A delivery goes to the sender, whose id the handler passes on (line 520). |
| ClientBot.PhotoGateIsPlatform | client_bot.py:1041-1043 | The photo commands' URL gate holds iff the platform classifier answers "TikTok Photos". |
| ClientBot.ChunksCover | client_bot.py:1061-1066 | The slices `[i:i+10]` over `range(0, total, 10)`, concatenated in order, are the image list. |
| ClientBot.ChunkSizes | client_bot.py:1059-1066 | Every chunk holds between 1 and 10 images. |
| ClientBot.ChunkAt | client_bot.py:1061-1066 | Chunk k is the slice starting at 10·k. |
| ClientBot.Chunks | client_bot.py:1059-1066 | There are ⌈n/10⌉ chunks. |
| ClientBot.AlbumShape | client_bot.py:1066-1074 | Album k is the k-th slice of at most ten, and it carries the caption iff k = 0. |
| ClientBot.AlbumsCover | client_bot.py:1061-1074 | Sending every album delivers each image once, in list order. |
| ClientBot.FirstStop | client_bot.py:1061-1074 | The first chunk the loop does not get through: every earlier chunk found the record, had its progress edit go through and was sent, and this one did not. |
| ClientBot.SendAlbums | client_bot.py:1061-1074 | The loop sends the albums in order. It stops at the first chunk whose check finds the record gone, whose progress edit raises or whose send raises. What was sent is exactly the albums before that chunk. `cancelled` holds iff the stop was a missing record. |
| ClientBot.TelegramVideoClient.SendPhotoAlbums | client_bot.py:1045-1091 | Stage Download and the action are written, with no other stage, and the record is popped on every exit. A "downloading" edit that raises, or an empty or failed image list, sends nothing and cleans nothing. When the "sending" edit raises, nothing is sent and the images are handed to cleanup once, by the `finally`. Otherwise the albums before the first stopping chunk are sent. The images are then cleaned twice after a cancel (the cancel branch, then the `finally`) and once otherwise. The albums sent go to the given destination, which is reported iff at least one album was sent. |
| ClientBot.TelegramVideoClient.HandlePhotosCommand | client_bot.py:1023-1091 | The chat and authorisation gate comes first, then the oldest pending task (NoPendingTask iff the gate passes and there is none). When that oldest pending URL fails the TikTok photo gate, the answer is NotPhotoUrl and the registry is unchanged, the task still in Info. Otherwise the task is removed, having been in stage Download only. A raising first edit or no images sends and cleans nothing. A raising "sending" edit sends nothing and cleans the images once. Otherwise the albums before the first stopping chunk are sent. The images are cleaned twice when the stop is a cancel and once otherwise. The albums go to the sender (`event.sender_id`, lines 1068-1069). |
| ClientBot.TelegramVideoClient.HandlePhotosForwardCommand | client_bot.py:1093-1161 | The same as `/photos`, with action 'photos_forward'. The albums go to the target chat (TARGET_CHAT_ID, lines 1138-1139). |
| Utils.FormatDurationFields | utils.py:28-40 | For seconds ≥ 0 the text has one field below 60, two below 3600 and three otherwise. Every field after the first is below 60, as is the minutes field of the two-field form. The fields read as h·3600 + m·60 + s give the input back. |
| Utils.SanitizeFilename | utils.py:58-70 | No invalid character survives, and each one becomes `_` while every other character is kept. A name of at most 255 is only masked. A longer one is masked and then cut to fit. |
| Utils.FitLength | utils.py:66-68 | The cut name still ends with the `splitext` extension and is a prefix of the input plus that extension. It is exactly 255 long unless the extension alone is longer. Every character comes from the input. |
| Utils.SplitExt | utils.py:67 | `os.path.splitext`: name and extension concatenate to the input. A non-empty extension starts with its only '.' and holds no '/', and a non-dot character of the last component precedes it. The extension is empty iff no dot of the last component follows a non-dot character of that component. |
| Utils.EscapeMarkdown | utils.py:163-168 | The loop equals escaping each of the 18 characters in turn. The length grows by exactly one per special character. Removing the inserted backslashes gives the text back. |
| Utils.UnescapeEscape | utils.py:165-167 | Because the backslash is not in the list, escaping can be undone unambiguously. |
| Utils.EscapeEachLength | utils.py:165-167 | Each escaped character adds exactly one backslash. |
| Utils.FirstPlatform | utils.py:94-98 | None iff no table key occurs in the netloc. Otherwise the platform of the first key that occurs. |
| Utils.GetVideoPlatformCases | utils.py:72-102 | URLs containing 'tiktok.com' give "TikTok Photos" iff '/photo/' or case-insensitive 'slideshow' occurs, and "TikTok" otherwise. Other URLs take the first matching key of the lowercased netloc, and None iff there is none. |
| Utils.IsSpamUrl | utils.py:113-137 | True iff some indicator occurs in the lowercased URL. |
| Utils.SpamIgnoresCase | utils.py:132-134 | Changing the case of the URL does not change the answer. |
| Utils.ProgressBarIdle | utils.py:141-142 | With total 0 the bar is exactly `length` full blocks. |
| Utils.ProgressBarShape | utils.py:144-145 | For 0 ≤ current ≤ total > 0 the bar has exactly `length` blocks. The first `length·current // total` are full and the rest empty. |
| Utils.ProgressBarMonotone | utils.py:144-145 | More progress never gives fewer full blocks. |
| Utils.UsernameChatId | utils.py:155-156 | "@" + name is valid iff name is non-empty and alphanumeric once underscores are removed. |
| Utils.NumericChatIdValid | utils.py:157-159 | Every decimal rendering of an integer is a valid chat id. |
| Utils.ParsePyIntRoundTrip | utils.py:158 | `int(str(n)) == n`, for the ASCII part of `int()`. |
| Utils.GetAllAllowedUsers | utils.py:234-255 | A user is in the union iff they are the non-zero admin, the non-zero single environment id, a member of the environment id set, or a file user. |
| Utils.IsUserAllowed | utils.py:213-232 | The branch-by-branch decision holds iff the user is in `get_all_allowed_users()`, for an unset, single-id or id-set environment value. |
| Utils.AdminAlwaysAllowed | utils.py:217-219 | A non-zero admin is always allowed. |
| Utils.AllowedUsersFile.AddAllowedUser | utils.py:201-205 | When saving succeeds the file holds the loaded set plus the user, and otherwise it is unchanged. The result is the save flag. |
| Utils.AllowedUsersFile.RemoveAllowedUser | utils.py:207-211 | When saving succeeds the file holds the loaded set minus the user, and otherwise it is unchanged. The result is the save flag. |
| Utils.AddedUserAllowed | utils.py:201-232 | After an add, the user is allowed. |
| Utils.RemovedUserAllowedIffElsewhere | utils.py:207-232 | After a remove, the user is allowed iff the admin or the environment still admits them. |
| Sorting.SortBySorted | downloader.py:649 | `image_files.sort(key=basename)` gives a list in key order that is a permutation of its input. |
| Sorting.InsertSorted | downloader.py:649 | Inserting into a sorted list keeps it sorted. |
| Sorting.InsertKeyFilter | downloader.py:649 | Inserting into a sorted list puts the new element after every element with the same key. |
| Sorting.SortByStable | downloader.py:649 | The sort is stable, as Python's `list.sort` is: for every key, the elements with that key keep their input order. |
| Downloader.IsSubpathOrder | downloader.py:328-335 | Component-prefix containment is reflexive, antisymmetric and transitive. |
| Downloader.DirnameStaysInside | downloader.py:337-358 | The parent of a path strictly inside the root is still inside the root. |
| Downloader.RemoveTreeInside | downloader.py:360-369 | Deleting a directory strictly inside the root keeps the file system well formed. Only entries strictly inside the root disappear, and none are left orphaned. |
| Downloader.SafeRmtree | downloader.py:360-369 | A missing path, the root, or a path outside the root changes nothing. Otherwise exactly the directory's subtree is removed, and every removed entry lies under the path and strictly inside the root. |
| Downloader.GetTopTempDir | downloader.py:337-358 | Corrected: None iff the start directory is not strictly inside the root. Otherwise the root plus one component, and a prefix of the start directory (the parent when the path is a file). |
| Downloader.TopTempDirAsWritten | downloader.py:337-358 | As written: no answer outside the root. Strictly inside, the answer is the root plus one component, a prefix of the start directory. A start equal to a root other than "/" answers "/" (the empty component sequence). |
| Downloader.CleanupFile | downloader.py:656-684 | No path changes nothing, and an existing file is removed. The top temp directory's subtree is gone afterwards when it was a directory. Every removed entry is the file, lies strictly inside the root, or is a non-"/" ancestor of the file. For a path inside the root every removed entry is the file or lies strictly inside the root. The file system stays well formed and nothing is left orphaned. It uses the corrected GetTopTempDir. The as-written ascent differs only for a start equal to the root, where it answers "/", which SafeRmtree refuses, so the effect on the file system is the same. A file strictly inside the root takes with it only entries inside its top temp directory. |
| Downloader.CleanupFiles | downloader.py:686-707 | An empty list changes nothing. Every listed file is removed, and only listed files or entries strictly inside the root disappear. The temp directory is taken from the first path only, and its subtree is gone afterwards. It uses the corrected GetTopTempDir, with the same effect as the as-written ascent, as for CleanupFile. Besides the listed files, only entries inside the first path's top temp directory disappear, and only when that path is strictly inside the root. |
| Downloader.TiktokPhotoCases | downloader.py:391-412 | False without 'tiktok.com', and true with a photo marker. Otherwise it is true only through the resolved short link. Without resolution it agrees with the platform classifier's "TikTok Photos". |
| Downloader.ExtClassesDisjoint | downloader.py:496-503 | No file name has both an image and an audio extension, an image and a video one, or an audio and a video one. |
| Downloader.FilterExt | downloader.py:503-507 | The filtered list is no longer than the input. It holds only files with a listed extension, and every such file of the input occurs in it. |
| Downloader.FilterExtCount | downloader.py:503-507 | Each file with a listed extension is kept as many times as it occurs in the input, and no other file is kept. |
| Downloader.CollectImages | downloader.py:634-638 | The walk loop collects exactly FilterExt of the walked files for the image extensions, in walk order. |
| Downloader.FindDownloadedFile | downloader.py:487-521 | No file gives NoFile. Any video gives the first video. Without videos, more than one image means slideshow. Otherwise the first file is used. |
| Downloader.DownloadTiktokImages | downloader.py:612-654 | None iff the URL is not a photo post or no image was walked. Otherwise a non-empty list of images only, sorted by basename, a permutation of the walked images. |
| Downloader.FallbackUsername | downloader.py:781-790 | The user name contains no '/'. |
| Downloader.FallbackVideoId | downloader.py:790-797 | The video id contains neither '?' nor '/'. |
| Downloader.FallbackTiktokInfo | downloader.py:774-817 | The uploader is "@" + user, the duration is 15 for photo posts and 30 otherwise, the size is 10·1024·1024, and the description names user and id. |
| Downloader.SlideshowEstimate | downloader.py:840-841 | For a positive size the estimate is size + size/2, at least the size and below twice it. |
| Downloader.SumFormatSizes | downloader.py:830-834 | The loop adds up exactly the present, non-zero format sizes (SumSizes), and the sum is non-negative when every size is. |
| Downloader.EstimateSize | downloader.py:828-841 | The size is the sum of the format sizes when `requested_formats` is present, else the single size, else 0. It is enlarged to size + size/2 (at least the size, below twice it) iff the post is a photo post and the size is positive. It is never negative for non-negative reported sizes. |
| Downloader.ShortDescription | downloader.py:848 | "" iff the description is missing or empty. Otherwise a description of at most 200 characters gets "..." appended, and a longer one is cut to its first 200 characters followed by "...". |
| Downloader.FormatVideoInfo | downloader.py:819-849 | The title is tagged by post type, by the first photo-post test. Uploader and duration get their defaults. The size is the EstimateSize answer for the second photo-post test, and never negative for non-negative reported sizes. The description is the ShortDescription cut. |

## Left out

- asyncio:
  - There is no interleaving of handlers, no `create_task` or `run_in_executor`, and no sleeping.
  - A `/cancel` that runs while a handler waits is seen through the registry keys each cancellation check reads.
    These are the parameters `polls` (the download poll), `calls[k].keys` (the upload progress callbacks) and
    `keys(k)` (the photo loop). `CancelStopsDownload`, `CancelStopsUpload` and `CancelSparesOthers` tie them to the
    registry `/cancel` leaves behind.
  - `Task.cancel()` in `/cancel` is not modelled; it raises the cancel inside the waiting info task.
  - The waiting loop at the end of `_process_video_task` is not modelled.
  - A `/cancel` between the end of the download and the write of stage 'upload' makes that write raise a
    `KeyError`. This is not modelled: the handler writes the stage on the record the download started with.
- The chat transport (Telethon) is modelled only as success or failure parameters:
  - `editsOk` numbers the status edits along an action or photo handler's path: edit k goes through iff
    k < `editsOk`. Once the message cannot be edited, no later edit can, so an edit that fails once and then
    works again is not modelled;
  - `statusEditable` covers the edits of `_process_video_task`;
  - `editOk(id)` covers `/cancel`'s edits;
  - `reply` covers the first status message;
  - `sendOk(k)` covers the k-th album;
  - `sendOk` of an upload decides how `send_file` ends when no progress callback raised the cancel. A transfer that
    fails part-way is modelled as failing after all its callbacks.

  Message texts are not modelled.
- ClientBot.TelegramVideoClient.HandleForwardActionDirect: the cleanup calls are returned as a list and are not
  applied to the `FileSystem`. The video caption, the dimensions, `os.path.getsize` and `get_video_info` before upload
  are not modelled; none of them raises in the model.
- ClientBot.TelegramVideoClient.HandleDownloadActionDirect: the same as the forward action; `send_video_to_user` is
  reduced to its upload outcome.
- ClientBot.TelegramVideoClient.HandleMessage: `extract_urls_from_text` (a regex) is replaced by the `urls`
  parameter. `is_topic_accessible` is replaced by `topicAccessible`.
- The admin commands (`/adduser`, `/removeuser`, `/listusers`, `/start`, `/help`, `/getid`) are message text around
  the allow-list functions modelled in `Utils`.
- Float arithmetic is not modelled: `format_file_size`, the progress texts of the upload callbacks and the percentage suffix of
  `create_progress_bar`.
- Downloader.SlideshowEstimate: it models `int(filesize * 1.5)` as `(3·size)/2`. This agrees with the float result
  only while 1.5·size is exactly representable, that is below 2^52.
- Unicode: `lower()` is modelled on ASCII letters only, and `isalnum()` and `int()` on ASCII digits, letters and
  whitespace only.
- Utils.GetVideoPlatform: `urlparse(url).netloc` is a parameter (`None` when parsing fails).
- The allow-list file is modelled as a set plus load and save success flags. JSON reading and writing is not
  modelled. A non-numeric string ALLOWED_USERS_STR is not modelled, because `int in str` raises in Python. A
  non-numeric ADMIN_USER_ID string is modelled as no admin.
- Downloader paths are normalised component sequences, so `realpath`, symbolic links and the `''`-path case of
  `cleanup_file` are not modelled. `os.walk` is the `walked` parameter, and file kinds come from the `FileSystem` map.
- Downloader.DownloadTiktokImages: the gallery-dl call is not modelled, nor is the removal of the temporary
  directory when no image is found.
- Downloader.IsTiktokPhotoUrl: short-link resolution (`requests.head`) is the `resolved` parameter.
  `_format_video_info` runs the test twice, with one request each, so FormatVideoInfo takes the two answers as
  separate parameters.
- Downloader.FormatVideoInfo: a key that is present with the value `None` is modelled as a missing key. For the
  title, uploader and duration (downloader.py:822 and 845-846), Python's `info.get(key, default)` then returns `None`,
  while the model gives the default.
- Downloader.FindDownloadedFile: the audio enhancer, slideshow creation (ffmpeg), `_verify_video_file` and the
  yt-dlp and gallery-dl subprocess wrappers are not modelled. The slideshow branch is only the decision
  `BuildSlideshow`.
- `get_video_info`, `download_video` and `_try_standard_*` are yt-dlp calls. The model covers only their post-processing
  (`FormatVideoInfo`, `FallbackTiktokInfo`).
- configuration loading, `setup.py`, `run.py` and `audio_enhancer.py` are not part of this model.

## Findings

| source | as written | input that shows it | evidently intended | confidence | as-written member | corrected member |
|---|---|---|---|---|---|---|
| downloader.py:337-358 | `_get_top_temp_dir` climbs while the parent is still inside the root. After the loop it only compares with the root when the root is "/", so a start directory equal to the root climbs to "/" and returns it | DOWNLOAD_DIR = "/srv/downloads" and a file directly in it, "/srv/downloads/a.mp4": the start is the root and the result is "/" | `None` when the start directory is the root itself | high, not executed; `_safe_rmtree` refuses "/", so nothing is deleted | Downloader.TopTempDirAsWritten | Downloader.GetTopTempDir |
