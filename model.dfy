/** The records the extension keeps in chrome.storage.local and passes
    between its parts. Timestamps are integer milliseconds since the epoch;
    the ISO-8601 text the source stores is not modelled, so a deadline is
    None when it is absent or does not parse. */
module Model {
  import opened Wrappers

  /** A stored task. Portal tasks carry no id (None); mail-detected tasks
      carry course + "::" + title. An empty string stands for an absent or
      empty text field, both of which JavaScript treats as false. */
  datatype Task = Task(
    id: Option<string>,
    title: string,
    course: string,
    contentType: string,
    url: string,
    due: Option<int>)

  datatype EventKind = TaskAdded | TaskSubmitted | Notification

  /** One change announced by a portal mail. */
  datatype MailEvent = MailEvent(kind: EventKind, title: string, course: string, category: Option<string>)

  /** A request to chrome.notifications.create for a task, with the number of
      hours the notification text says are left. */
  datatype Notice = Notice(task: Task, remainingHours: int)

  const HourMs: int := 3_600_000
  const MinuteMs: int := 60_000
  const DayMs: int := 86_400_000
}
