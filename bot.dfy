/**
 * The bot's state and handlers: the `users` table (user id to "HH:MM"), the `sent` table (user id
 * to the images already received in the current cycle) and the scheduler's job table, keyed by
 * user id, which `add_job(..., replace_existing=True)` updates in place.
 */
module PhotoBot {
  import opened Common
  import opened PhotoCatalog
  import opened Rotation
  import opened TimeFormat
  import opened Welcome

  /** The time a user gets when they first send /start. */
  const DefaultTime := "10:00"

  /** A daily job: it calls `send_photo_to_user` for `user` at `hour`:`minute`. */
  datatype Job = Job(user: string, hour: nat, minute: nat)

  /** What one run of `send_photo_to_user` did. */
  datatype Delivery =
    | CatalogUnavailable      // the photo folder could not be listed; the job raised
    | NothingToSend           // the catalog is empty
    | Delivered(photo: string)
    | SendFailed(photo: string)

  /** The reply of /time. */
  datatype TimeReply = Usage | TimeUpdated(time: string) | InvalidFormat

  /** `sent.get(user, [])`. */
  function HistoryOf(sent: map<string, seq<string>>, user: string): seq<string>
  {
    if user in sent then sent[user] else []
  }

  /** The job `schedule_user_job(user, time)` installs, None where it raises. */
  function JobFor(user: string, time: string): (j: Option<Job>)
    ensures j.Some? <==> CronFields(time).Some?
    ensures j.Some? ==> j.value.user == user && ValidTime(TimeOfDay(j.value.hour, j.value.minute))
  {
    match CronFields(time)
    case None => None
    case Some(t) => Some(Job(user, t.hour, t.minute))
  }

  /** A new user's job runs at 10:00. */
  lemma DefaultJob(user: string)
    ensures JobFor(user, DefaultTime) == Some(Job(user, 10, 0))
  {
    DefaultTimeAccepted();
  }

  /** The job table that scheduling every registered user produces. */
  function JobTable(users: map<string, string>): map<string, Job>
    requires forall u :: u in users ==> CronFields(users[u]).Some?
  {
    map u | u in users :: JobFor(u, users[u]).value
  }

  /** Every user of `users` has exactly one job in `jobs`, for them, at their stored time, and no one else has a job. */
  ghost predicate Consistent(users: map<string, string>, jobs: map<string, Job>)
  {
    && jobs.Keys == users.Keys
    && forall u :: u in users ==> JobFor(u, users[u]) == Some(jobs[u])
  }

  /** Storing a time and installing the job it yields keeps the tables consistent. */
  lemma ConsistentAfterSchedule(users: map<string, string>, jobs: map<string, Job>, user: string, time: string)
    requires Consistent(users, jobs)
    requires JobFor(user, time).Some?
    ensures Consistent(users[user := time], jobs[user := JobFor(user, time).value])
  {
  }

  class Bot {
    var users: map<string, string>
    var sent: map<string, seq<string>>
    var jobs: map<string, Job>

    /** Every registered user has exactly one job, for them, at their stored time, and no one else has a job. */
    ghost predicate Valid()
      reads this
    {
      Consistent(users, jobs)
    }

    /** The state at start-up: the two tables as loaded from their files, and no jobs yet. */
    constructor (loadedUsers: map<string, string>, loadedSent: map<string, seq<string>>)
      ensures users == loadedUsers && sent == loadedSent && jobs == map[]
    {
      users := loadedUsers;
      sent := loadedSent;
      jobs := map[];
    }

    /**
     * `send_photo_to_user`: pick the user's next image from the catalog of `listing` (None when the
     * folder cannot be listed) and, when the send succeeds, record it in `sent`.
     */
    method SendPhotoToUser(user: string, listing: Option<seq<string>>, success: bool) returns (outcome: Delivery)
      modifies this`sent
      ensures listing.None? ==> outcome == CatalogUnavailable && sent == old(sent)
      ensures listing.Some? && SelectNext(PhotoList(listing.value), HistoryOf(old(sent), user)).None? ==>
        outcome == NothingToSend && sent == old(sent)
      ensures listing.Some? && SelectNext(PhotoList(listing.value), HistoryOf(old(sent), user)).Some? ==>
        var s := SelectNext(PhotoList(listing.value), HistoryOf(old(sent), user)).value;
        if success then outcome == Delivered(s.photo) && sent == old(sent)[user := s.history]
        else outcome == SendFailed(s.photo) && sent == old(sent)
    {
      if listing.None? {
        return CatalogUnavailable;
      }
      var photoList := PhotoList(listing.value);
      var userSent := HistoryOf(sent, user);
      var available := Unseen(photoList, userSent);
      if available == [] {
        userSent := [];
        available := photoList;
        assert photoList != [] ==> [] + [photoList[0]] == [photoList[0]];
      }
      if available != [] {
        var photo := available[0];
        if success {
          userSent := userSent + [photo];
          sent := sent[user := userSent];
          outcome := Delivered(photo);
        } else {
          outcome := SendFailed(photo);
        }
      } else {
        outcome := NothingToSend;
      }
    }

    /**
     * `schedule_user_job`: install or replace the job with id `user`; when the time cannot be
     * turned into a trigger the call raises and the table is left as it was.
     */
    method ScheduleUserJob(user: string, time: string) returns (ok: bool)
      modifies this`jobs
      ensures ok <==> CronFields(time).Some?
      ensures ok ==> jobs == old(jobs)[user := JobFor(user, time).value]
      ensures !ok ==> jobs == old(jobs)
    {
      var job := JobFor(user, time);
      if job.None? {
        return false;
      }
      jobs := jobs[user := job.value];
      ok := true;
    }

    /**
     * /start: register a new user at the default time, keep an existing user's time, (re)install
     * the user's job, and send the welcome image.
     */
    method Start(user: string, present: set<string>, sendOk: set<string>) returns (replies: seq<Reply>)
      requires Valid()
      modifies this`users, this`jobs
      ensures Valid()
      ensures old(user in users) ==> users == old(users) && jobs == old(jobs)
      ensures old(user !in users) ==> users == old(users)[user := DefaultTime]
      ensures user in jobs && JobFor(user, users[user]) == Some(jobs[user])
      ensures replies == WelcomeReplies(StartExtensions, present, sendOk)
    {
      if user !in users {
        DefaultJob(user);
        ConsistentAfterSchedule(users, jobs, user, DefaultTime);
        users := users[user := DefaultTime];
      }
      var ok := ScheduleUserJob(user, users[user]);
      replies := SendWelcome(present, sendOk);
    }

    /**
     * /time: with no argument, the usage text; with an argument `strptime` refuses, the
     * invalid-format text; otherwise store the time, reschedule the job and confirm.
     */
    method SetTime(user: string, args: seq<string>) returns (reply: TimeReply)
      requires Valid()
      modifies this`users, this`jobs
      ensures Valid()
      ensures args == [] ==> reply == Usage && users == old(users) && jobs == old(jobs)
      ensures args != [] && Strptime(args[0]).None? ==> reply == InvalidFormat && users == old(users) && jobs == old(jobs)
      ensures args != [] && Strptime(args[0]).Some? ==>
        && reply == TimeUpdated(args[0])
        && users == old(users)[user := args[0]]
        && jobs == old(jobs)[user := Job(user, Strptime(args[0]).value.hour, Strptime(args[0]).value.minute)]
    {
      if args == [] {
        return Usage;
      }
      var timeStr := args[0];
      if Strptime(timeStr).None? {
        return InvalidFormat;
      }
      StrptimeAgreesWithCron(timeStr);
      ConsistentAfterSchedule(users, jobs, user, timeStr);
      users := users[user := timeStr];
      var ok := ScheduleUserJob(user, timeStr);
      reply := TimeUpdated(timeStr);
    }

    /**
     * The loop of `main`: schedule every registered user. It fails, as the start-up does, when a
     * stored time cannot be turned into a trigger; otherwise every user has their job.
     */
    method ScheduleRegistered() returns (ok: bool)
      requires jobs == map[]
      modifies this`jobs
      ensures ok <==> forall u :: u in users ==> CronFields(users[u]).Some?
      ensures ok ==> jobs == JobTable(users) && Valid()
    {
      var pending := users.Keys;
      while pending != {}
        invariant pending <= users.Keys
        invariant forall u :: u in users.Keys - pending ==> CronFields(users[u]).Some?
        invariant jobs == map u | u in users.Keys - pending :: JobFor(u, users[u]).value
        decreases pending
      {
        var u :| u in pending;
        ok := ScheduleUserJob(u, users[u]);
        if !ok {
          return false;
        }
        pending := pending - {u};
      }
      ok := true;
    }
  }
}
