/**
 * The platform's `AlarmManager` as the app uses it: one pending alarm per
 * PendingIntent identity. Two PendingIntents are the same alarm when they
 * target the same receiver class with the same request code; the extras do
 * not take part, and FLAG_UPDATE_CURRENT replaces them. Setting an alarm
 * replaces the one under the same identity; cancelling removes it.
 */
module Alarms {

  /** The receiver class an alarm's Intent targets. */
  datatype AlarmKind = DeadlineReminder | PriorityCheck

  /** The identity of a PendingIntent: receiver class and request code. */
  datatype AlarmKey = AlarmKey(kind: AlarmKind, requestCode: int)

  /** The extras an alarm delivers: `task_id`, `task_title`, `task_deadline` for the reminder, `task_id` alone for the check. */
  datatype Payload =
    | DeadlinePayload(taskId: int, title: string, deadline: int)
    | PriorityPayload(taskId: int)

  /** An exact RTC_WAKEUP alarm: when it fires and what it carries. */
  datatype Alarm = Alarm(fireAt: int, payload: Payload)

  type AlarmTable = map<AlarmKey, Alarm>

  class AlarmManager {
    var alarms: AlarmTable

    constructor ()
      ensures alarms == map[]
    {
      alarms := map[];
    }

    /** `setExactAndAllowWhileIdle` (or `setExact` before API 23). */
    method Set(key: AlarmKey, alarm: Alarm)
      modifies this
      ensures alarms == old(alarms)[key := alarm]
    {
      alarms := alarms[key := alarm];
    }

    /** `cancel`: a no-op when nothing is pending under that identity. */
    method Cancel(key: AlarmKey)
      modifies this
      ensures alarms == old(alarms) - {key}
    {
      alarms := alarms - {key};
    }
  }
}
