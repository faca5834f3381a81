/** The notification entity of communications/models.py; listed newest first. */
module CommunicationsModels {
  import opened Wrappers
  import opened AccountsModels

  datatype Notification = Notification(
    user: UserId,
    message: string,
    link: Option<string>,
    isRead: bool,
    createdAt: int)
}
