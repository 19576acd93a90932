/** The notifications settings the core consumes. The configuration loader
    itself is not part of this model; the fields are those the popup engine,
    the service and the bar module read. */
module Config {
  import opened Common

  datatype NotificationsModuleConfig = NotificationsModuleConfig(
    maxNotifications: nat,
    defaultTimeout: i32,
    popupEnabled: bool,
    popupMaxVisible: nat,
    popupDurationMs: nat,
    popupAnimationMs: nat)
}
