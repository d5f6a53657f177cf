/** The columns of the `reminders` table (models.py:15-22). Instants are whole
    seconds since the Unix epoch; the ids Discord hands out are naturals. */
module Models {

  datatype Reminder = Reminder(
    id: nat,
    userId: nat,
    customId: string,
    eventTime: int,
    status: string,
    guildId: nat,
    channelId: nat,
    messageId: nat)

  /** The two status values the reminder code writes and tests. */
  const Pending: string := "pending"
  const Notified: string := "notified"
}
