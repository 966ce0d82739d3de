/** The persisted configuration record and the command handlers that change
    it.  Each handler loads the record, checks the caller and its argument,
    updates one field and saves the record; here it is a function from the old
    record to an outcome and the new record.  The transport (replies, photo
    upload, file download) is reduced to the booleans that decide the outcome,
    and the clock to the parameter `now`. */
module BotConfig {
  import opened Optional
  import Codec

  /** The record kept in `config.json`. */
  datatype Config = Config(
    adminId: int,
    botToken: string,
    channelName: string,
    picturePath: string,
    postInterval: string,
    lastPostTime: Option<int>)

  /** What a handler reports back to the caller (or logs).  `DownloadFailed`
      stands for the exception a failed `get_file` or `download_to_drive`
      raises out of `set_picture`: no reply is sent and nothing is saved. */
  datatype Outcome =
    | Done
    | Unauthorized
    | InvalidChannel
    | MissingInterval
    | InvalidInterval
    | IntervalTooShort
    | NotAPhotoReply
    | DownloadFailed
    | PictureMissing
    | SendFailed

  datatype Reply = Reply(outcome: Outcome, config: Config)

  /** The shortest interval `set_interval` accepts, in seconds. */
  const MinInterval: nat := 10

  predicate IsAdmin(cfg: Config, caller: int) { caller == cfg.adminId }

  predicate StartsWithAt(s: string) { |s| > 0 && s[0] == '@' }

  /** The stored interval parses to at least the minimum. */
  predicate IntervalValid(cfg: Config)
    ensures IntervalValid(cfg) ==> cfg.postInterval != [] && Codec.StartsWithGroup(cfg.postInterval)
  {
    var p := Codec.Parse(cfg.postInterval);
    p.Ok? && p.seconds >= MinInterval
  }

  /** `set_channel`: the first argument becomes the channel when it starts
      with `@`. */
  function SetChannel(cfg: Config, caller: int, args: seq<string>): (r: Reply)
    ensures r.outcome == Done <==> IsAdmin(cfg, caller) && |args| > 0 && StartsWithAt(args[0])
    ensures r.outcome == Unauthorized <==> !IsAdmin(cfg, caller)
    ensures IsAdmin(cfg, caller) && !(|args| > 0 && StartsWithAt(args[0])) ==> r.outcome == InvalidChannel
    ensures r.config == if r.outcome == Done then cfg.(channelName := args[0]) else cfg
  {
    if !IsAdmin(cfg, caller) then Reply(Unauthorized, cfg)
    else if |args| == 0 || !StartsWithAt(args[0]) then Reply(InvalidChannel, cfg)
    else Reply(Done, cfg.(channelName := args[0]))
  }

  /** `set_interval`: the first argument is stored verbatim when it parses to
      at least ten seconds. */
  function SetInterval(cfg: Config, caller: int, args: seq<string>): (r: Reply)
    ensures r.outcome == Done <==>
      IsAdmin(cfg, caller) && |args| > 0
      && Codec.Parse(args[0]).Ok? && Codec.Parse(args[0]).seconds >= MinInterval
    ensures r.outcome == Unauthorized <==> !IsAdmin(cfg, caller)
    ensures IsAdmin(cfg, caller) && |args| == 0 ==> r.outcome == MissingInterval
    ensures IsAdmin(cfg, caller) && |args| > 0 && Codec.Parse(args[0]) == Codec.InvalidFormat ==>
      r.outcome == InvalidInterval
    ensures (IsAdmin(cfg, caller) && |args| > 0 && Codec.Parse(args[0]).Ok?
             && Codec.Parse(args[0]).seconds < MinInterval) ==> r.outcome == IntervalTooShort
    ensures r.config == if r.outcome == Done then cfg.(postInterval := args[0]) else cfg
    ensures r.outcome == Done ==> IntervalValid(r.config)
  {
    if !IsAdmin(cfg, caller) then Reply(Unauthorized, cfg)
    else if |args| == 0 then Reply(MissingInterval, cfg)
    else
      match Codec.Parse(args[0])
      case InvalidFormat => Reply(InvalidInterval, cfg)
      case Ok(seconds) =>
        if seconds < MinInterval then Reply(IntervalTooShort, cfg)
        else Reply(Done, cfg.(postInterval := args[0]))
  }

  /** `set_picture`: when the command replies to a photo and the download
      succeeds, the path it was saved under becomes the picture. */
  function SetPicture(cfg: Config, caller: int, replyHasPhoto: bool, downloaded: bool, savedPath: string): (r: Reply)
    ensures r.outcome == Done <==> IsAdmin(cfg, caller) && replyHasPhoto && downloaded
    ensures r.outcome == Unauthorized <==> !IsAdmin(cfg, caller)
    ensures IsAdmin(cfg, caller) && !replyHasPhoto ==> r.outcome == NotAPhotoReply
    ensures IsAdmin(cfg, caller) && replyHasPhoto && !downloaded ==> r.outcome == DownloadFailed
    ensures r.config == if r.outcome == Done then cfg.(picturePath := savedPath) else cfg
  {
    if !IsAdmin(cfg, caller) then Reply(Unauthorized, cfg)
    else if !replyHasPhoto then Reply(NotAPhotoReply, cfg)
    else if !downloaded then Reply(DownloadFailed, cfg)
    else Reply(Done, cfg.(picturePath := savedPath))
  }

  /** The posting step shared by `post_now` and `post_scheduled_picture`:
      the timestamp is recorded only after the picture was found and sent. */
  function Post(cfg: Config, pictureExists: bool, sent: bool, now: int): (r: Reply)
    ensures r.outcome == Done <==> pictureExists && sent
    ensures !pictureExists ==> r.outcome == PictureMissing
    ensures pictureExists && !sent ==> r.outcome == SendFailed
    ensures r.config == if r.outcome == Done then cfg.(lastPostTime := Some(now)) else cfg
  {
    if !pictureExists then Reply(PictureMissing, cfg)
    else if !sent then Reply(SendFailed, cfg)
    else Reply(Done, cfg.(lastPostTime := Some(now)))
  }

  /** `post_now`: an immediate post, for the admin only. */
  function PostNow(cfg: Config, caller: int, pictureExists: bool, sent: bool, now: int): (r: Reply)
    ensures r.outcome == Done <==> IsAdmin(cfg, caller) && pictureExists && sent
    ensures r.outcome == Unauthorized <==> !IsAdmin(cfg, caller)
    ensures IsAdmin(cfg, caller) && !pictureExists ==> r.outcome == PictureMissing
    ensures IsAdmin(cfg, caller) && pictureExists && !sent ==> r.outcome == SendFailed
    ensures r.config == if r.outcome == Done then cfg.(lastPostTime := Some(now)) else cfg
  {
    if !IsAdmin(cfg, caller) then Reply(Unauthorized, cfg) else Post(cfg, pictureExists, sent, now)
  }

  /** `post_scheduled_picture`: the timer job.  It has no caller, so there is
      no admin check. */
  function PostScheduled(cfg: Config, pictureExists: bool, sent: bool, now: int): (r: Reply)
    ensures r.outcome == Done <==> pictureExists && sent
    ensures !pictureExists ==> r.outcome == PictureMissing
    ensures pictureExists && !sent ==> r.outcome == SendFailed
    ensures r.config == if r.outcome == Done then cfg.(lastPostTime := Some(now)) else cfg
  {
    Post(cfg, pictureExists, sent, now)
  }

  /** The handlers that can change the record, with what each one is given. */
  datatype Command =
    | SetChannelCommand(args: seq<string>)
    | SetIntervalCommand(args: seq<string>)
    | SetPictureCommand(replyHasPhoto: bool, downloaded: bool, savedPath: string)
    | PostCommand(pictureExists: bool, sent: bool, now: int)
    | ScheduledPost(pictureExists: bool, sent: bool, now: int)

  /** One read-modify-write of the record by the handler for `cmd`. */
  function Apply(cfg: Config, caller: int, cmd: Command): (r: Reply)
    ensures r.config.adminId == cfg.adminId && r.config.botToken == cfg.botToken
  {
    match cmd
    case SetChannelCommand(args) => SetChannel(cfg, caller, args)
    case SetIntervalCommand(args) => SetInterval(cfg, caller, args)
    case SetPictureCommand(photo, downloaded, path) => SetPicture(cfg, caller, photo, downloaded, path)
    case PostCommand(found, sent, now) => PostNow(cfg, caller, found, sent, now)
    case ScheduledPost(found, sent, now) => PostScheduled(cfg, found, sent, now)
  }

  /** A caller other than the admin changes nothing, through any command
      except the timer job. */
  lemma NonAdminChangesNothing(cfg: Config, caller: int, cmd: Command)
    requires !IsAdmin(cfg, caller) && !cmd.ScheduledPost?
    ensures Apply(cfg, caller, cmd) == Reply(Unauthorized, cfg)
  {
  }

  /** A rejected command leaves the record as it was. */
  lemma RejectedChangesNothing(cfg: Config, caller: int, cmd: Command)
    requires Apply(cfg, caller, cmd).outcome != Done
    ensures Apply(cfg, caller, cmd).config == cfg
  {
  }

  /** No handler can make the stored interval invalid. */
  lemma ApplyKeepsIntervalValid(cfg: Config, caller: int, cmd: Command)
    requires IntervalValid(cfg)
    ensures IntervalValid(Apply(cfg, caller, cmd).config)
  {
  }

  /** Only a successful post moves `last_post_time`, always to the time of that
      post; when the clock has not gone back, the timestamp never decreases. */
  lemma ApplyLastPostTime(cfg: Config, caller: int, cmd: Command)
    ensures var after := Apply(cfg, caller, cmd);
      after.config.lastPostTime == cfg.lastPostTime
      || (after.outcome == Done && (cmd.PostCommand? || cmd.ScheduledPost?)
          && after.config.lastPostTime == Some(cmd.now))
    ensures var after := Apply(cfg, caller, cmd);
      (cmd.PostCommand? || cmd.ScheduledPost?) && cfg.lastPostTime.Some? && cfg.lastPostTime.value <= cmd.now ==>
        after.config.lastPostTime.Some? && after.config.lastPostTime.value >= cfg.lastPostTime.value
  {
  }

  /** An accepted command changes exactly the one field it is about. */
  lemma AcceptedChangesOneField(cfg: Config, caller: int, cmd: Command)
    requires Apply(cfg, caller, cmd).outcome == Done
    ensures var c := Apply(cfg, caller, cmd).config;
      match cmd
      case SetChannelCommand(args) => c == cfg.(channelName := c.channelName) && StartsWithAt(c.channelName)
      case SetIntervalCommand(args) => c == cfg.(postInterval := c.postInterval) && IntervalValid(c)
      case SetPictureCommand(_, _, path) => c == cfg.(picturePath := path)
      case PostCommand(_, _, now) => c == cfg.(lastPostTime := Some(now))
      case ScheduledPost(_, _, now) => c == cfg.(lastPostTime := Some(now))
  {
  }

  /** The interval floor: "5s" is refused. */
  lemma SetIntervalTooShort(cfg: Config)
    ensures SetInterval(cfg, cfg.adminId, ["5s"]).outcome == IntervalTooShort
  {
    var five := Codec.Components(None, None, None, Some("5"));
    assert Codec.Render(five) == "5s";
    Codec.ParseAs("5s", five, [], 5);
  }

  /** So is "0s", which parses to 0. */
  lemma SetIntervalZero(cfg: Config)
    ensures SetInterval(cfg, cfg.adminId, ["0s"]).outcome == IntervalTooShort
  {
    Codec.ParseZeroSeconds();
  }

  /** An argument that does not parse is refused with the format error. */
  lemma SetIntervalGarbage(cfg: Config)
    ensures SetInterval(cfg, cfg.adminId, ["garbage"]).outcome == InvalidInterval
  {
    assert Codec.Parse("garbage") == Codec.InvalidFormat by { Codec.ParseRejects(); }
  }

  /** "10s" is exactly long enough, and it is stored as written. */
  lemma SetIntervalAccepts(cfg: Config)
    ensures SetInterval(cfg, cfg.adminId, ["10s"]) == Reply(Done, cfg.(postInterval := "10s"))
  {
    var ten := Codec.Components(None, None, None, Some("10"));
    assert Codec.DecimalValue("10") == 10 by { assert "10"[..1] == "1"; }
    assert Codec.Render(ten) == "10s";
    Codec.ParseAs("10s", ten, [], 10);
  }
}
