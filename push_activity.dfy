/** CountlyPushActivity.performPushAction: the filter a tap on a push
    notification goes through before anything is launched, and the routing
    of the tapped part (body or button) to the link it opens. The wrapped
    intent is an abstract record of the parts the filter reads. */
module PushActivity {
  import opened JavaLang
  import opened Push

  /** Intent flag bits (android.content.Intent). */
  const FLAG_GRANT_READ_URI_PERMISSION: bv32 := 0x0000_0001
  const FLAG_GRANT_WRITE_URI_PERMISSION: bv32 := 0x0000_0002
  const FLAG_ACTIVITY_NEW_TASK: bv32 := 0x1000_0000
  const FLAG_ACTIVITY_NO_HISTORY: bv32 := 0x4000_0000
  const FLAG_ACTIVITY_CLEAR_WHEN_TASK_RESET: bv32 := 0x0008_0000
  const FLAG_ACTIVITY_MULTIPLE_TASK: bv32 := 0x0800_0000

  /** The flags of the intent that opens the link of the notification body. */
  const BODY_LINK_FLAGS: bv32 := FLAG_ACTIVITY_NO_HISTORY | FLAG_ACTIVITY_CLEAR_WHEN_TASK_RESET
                                 | FLAG_ACTIVITY_MULTIPLE_TASK | FLAG_ACTIVITY_NEW_TASK

  /** Build.VERSION_CODES.S (Android 12). */
  const ANDROID_S: int := 31

  datatype ComponentName = ComponentName(packageName: Option<string>, className: string)

  /** The intent allow-lists the serialised push configuration carries. */
  datatype Whitelist = Whitelist(classNames: set<string>, packageNames: set<string>)

  datatype Bundle = Bundle(message: Option<Message>)

  /** The wrapped intent: its flags, target component, serialised
      configuration, action index extra and message bundle. */
  datatype WrappedIntent = WrappedIntent(flags: bv32, component: Option<ComponentName>, config: Option<Whitelist>,
                                         actionIndex: Option<int>, bundle: Option<Bundle>)

  datatype StopReason = NullIntent | UriPermission | UntrustedPackage | ClassPackageMismatch | NullBundle | NullMessage

  /** What is started at the end: a VIEW intent for a link, carrying the
      action index, or the wrapped intent itself; LaunchFailed when looking
      up the button throws and the exception is swallowed. */
  datatype Launch = ViewLink(link: Option<Uri>, flags: bv32, actionIndex: int) | StartWrapped(flags: bv32) | LaunchFailed

  /** Stopped: returned early. Crashed: a NullPointerException escapes.
      Performed: the action index recorded, whether the notification was
      cancelled, whether the system dialogs were closed, and the launch. */
  datatype Outcome =
    | Stopped(reason: StopReason)
    | Crashed
    | Performed(recordedIndex: int, cancelledNotification: bool, closedSystemDialogs: bool, launch: Launch)

  predicate RequestsUriPermission(flags: bv32) {
    flags & FLAG_GRANT_READ_URI_PERMISSION != 0 || flags & FLAG_GRANT_WRITE_URI_PERMISSION != 0
  }

  /** The redirect checks pass: the target package is the app's own or
      allow-listed, and the target class lives under that package. */
  predicate PassesRedirectChecks(intent: WrappedIntent, contextPackage: string) {
    intent.component.Some? && intent.config.Some? &&
    var pkg := intent.component.value.packageName;
    pkg.Some? && pkg.value in intent.config.value.packageNames + {contextPackage} &&
    StartsWith(intent.component.value.className, pkg.value)
  }

  /** The enhanced for-loop over the package allow-list, stopping at the
      first match. */
  method IsTrustedPackage(intentPackageName: string, whiteList: set<string>) returns (trusted: bool)
    ensures trusted <==> intentPackageName in whiteList
  {
    trusted := false;
    var remaining := whiteList;
    while remaining != {}
      invariant remaining <= whiteList
      invariant intentPackageName !in whiteList - remaining
      invariant !trusted
      decreases |remaining|
    {
      var packageName :| packageName in remaining;
      if intentPackageName == packageName {
        trusted := true;
        break;
      }
      remaining := remaining - {packageName};
    }
  }

  /** The launch for a tapped action: index 0 is the body, which opens the
      message link or, without one, the wrapped intent; index k > 0 opens
      the link of button k - 1; any other index makes the button lookup
      throw. */
  function ActionTarget(msg: Message, index: int): (l: Launch)
    ensures index == 0 && msg.link.Some? ==> l == ViewLink(msg.link, BODY_LINK_FLAGS, 0)
    ensures index == 0 && msg.link.None? ==> l == StartWrapped(FLAG_ACTIVITY_NEW_TASK)
    ensures 1 <= index <= |msg.buttons| ==> l == ViewLink(msg.buttons[index - 1].link, FLAG_ACTIVITY_NEW_TASK, index)
    ensures l == LaunchFailed <==> index < 0 || index > |msg.buttons|
    ensures l.ViewLink? ==> l.actionIndex == index
  {
    if index == 0 then
      if msg.link.Some? then ViewLink(msg.link, BODY_LINK_FLAGS, 0) else StartWrapped(FLAG_ACTIVITY_NEW_TASK)
    else if 1 <= index <= |msg.buttons| then
      ViewLink(msg.buttons[index - 1].link, FLAG_ACTIVITY_NEW_TASK, index)
    else
      LaunchFailed
  }

  /** performPushAction. The guards in order: a missing wrapped intent, a
      URI grant flag, then (with redirect checks on) the package allow-list,
      to which the app's own package is added first, and the class/package
      prefix test; then the bundle and the message. Past them the action is
      recorded, the notification cancelled when a NotificationManager
      exists, the system dialogs closed before Android 12, and the tapped
      part launched. */
  method PerformPushAction(extra: Option<WrappedIntent>, useAdditionalChecks: bool, contextPackage: string,
                           managerPresent: bool, sdkInt: int) returns (o: Outcome)
    ensures extra.None? ==> o == Stopped(NullIntent)
    ensures extra.Some? && RequestsUriPermission(extra.value.flags) ==> o == Stopped(UriPermission)
    ensures extra.Some? && !RequestsUriPermission(extra.value.flags) && useAdditionalChecks ==>
              var intent := extra.value;
              if intent.component.None? || intent.config.None? then o == Crashed
              else
                var pkg := intent.component.value.packageName;
                if pkg.Some? && pkg.value !in intent.config.value.packageNames + {contextPackage} then
                  o == Stopped(UntrustedPackage)
                else if pkg.None? || !StartsWith(intent.component.value.className, pkg.value) then
                  o == Stopped(ClassPackageMismatch)
                else o !in {Crashed, Stopped(UntrustedPackage), Stopped(ClassPackageMismatch)}
    ensures extra.Some? && !RequestsUriPermission(extra.value.flags) &&
            (!useAdditionalChecks || PassesRedirectChecks(extra.value, contextPackage)) ==>
              var intent := extra.value;
              var index := intent.actionIndex.GetOr(0);
              if intent.bundle.None? then o == Stopped(NullBundle)
              else if intent.bundle.value.message.None? then o == Stopped(NullMessage)
              else o == Performed(index, managerPresent, sdkInt < ANDROID_S, ActionTarget(intent.bundle.value.message.value, index))
    ensures o.Performed? ==>
              extra.Some? && !RequestsUriPermission(extra.value.flags) &&
              (useAdditionalChecks ==> PassesRedirectChecks(extra.value, contextPackage))
  {
    if extra.None? {
      return Stopped(NullIntent);
    }
    var intent := extra.value;
    var flags := intent.flags;
    if flags & FLAG_GRANT_READ_URI_PERMISSION != 0 || flags & FLAG_GRANT_WRITE_URI_PERMISSION != 0 {
      return Stopped(UriPermission);
    }

    if useAdditionalChecks {
      if intent.component.None? {
        return Crashed;
      }
      var intentPackageName := intent.component.value.packageName;
      var intentClassName := intent.component.value.className;
      if intent.config.None? {
        return Crashed;
      }
      var whiteListIntentPackageNames := intent.config.value.packageNames;
      whiteListIntentPackageNames := whiteListIntentPackageNames + {contextPackage};

      if intentPackageName.Some? {
        var isTrustedPackage := IsTrustedPackage(intentPackageName.value, whiteListIntentPackageNames);
        if !isTrustedPackage {
          return Stopped(UntrustedPackage);
        }
      }

      if intentPackageName.None? || !StartsWith(intentClassName, intentPackageName.value) {
        return Stopped(ClassPackageMismatch);
      }
    }

    var index := intent.actionIndex.GetOr(0);
    if intent.bundle.None? {
      return Stopped(NullBundle);
    }
    var message := intent.bundle.value.message;
    if message.None? {
      return Stopped(NullMessage);
    }

    var recordedIndex := index;
    var cancelled := managerPresent;
    var closedSystemDialogs := sdkInt < ANDROID_S;
    var launch := ActionTarget(message.value, index);
    return Performed(recordedIndex, cancelled, closedSystemDialogs, launch);
  }

  // -------------------------------------------- numbering meets routing

  /** Every action a displayed notification carries (body at index 0,
      button i at index i + 1) routes to its own part of the message: the
      body to the message link or the wrapped intent, action k > 0 to the
      link of button k - 1, and never to a failing lookup. */
  lemma NotificationActionsRoute(msg: Message, actions: seq<PendingAction>, k: int)
    requires |actions| == |msg.buttons| + 1
    requires forall j :: 0 <= j < |actions| ==> actions[j].actionIndex == j
    requires 0 <= k < |actions|
    ensures ActionTarget(msg, actions[k].actionIndex) != LaunchFailed
    ensures k == 0 ==> ActionTarget(msg, actions[k].actionIndex) in {ViewLink(msg.link, BODY_LINK_FLAGS, 0), StartWrapped(FLAG_ACTIVITY_NEW_TASK)}
    ensures k > 0 ==> ActionTarget(msg, actions[k].actionIndex) == ViewLink(msg.buttons[k - 1].link, FLAG_ACTIVITY_NEW_TASK, k)
  {
  }

  /** A dialog button and the notification action with the same index
      agree: the index the dialog records, routed through the redirect
      activity, opens the very link the dialog button opens. */
  lemma DialogAgreesWithNotification(msg: Message, p: int)
    requires 0 <= p < |DialogButtons(msg.buttons)|
    ensures var (index, button) := DialogClick(WhichOf(DialogButtons(msg.buttons)[p].kind));
            button == p && ActionTarget(msg, index) == ViewLink(msg.buttons[button].link, FLAG_ACTIVITY_NEW_TASK, index)
  {
    DialogButtonsOpenTheirOwnLink(msg.buttons, p);
  }
}
