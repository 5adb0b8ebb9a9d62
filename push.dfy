/** The decision logic of push messaging (messaging/CountlyPush): push
    provider resolution and the init sequence, the tracked current activity,
    the notification accent colour, the EMUI version parsed from the build
    display string, and the guard and routing chains that decide whether a
    message becomes a dialog, a notification or nothing, with the action
    index each tappable part carries. Android objects are abstract values:
    a present/absent context or manager is a boolean, an Activity an
    identity, the class-path probes and the consent answer are inputs. */
module Push {
  import opened JavaLang

  type Uri = string
  /** The identity of an Activity object. */
  type ActivityId = nat

  datatype Provider = FCM | HMS

  /** A push button: its title and link. */
  datatype Button = Button(title: Option<string>, link: Option<Uri>)

  /** The parts of a push message the display logic looks at. */
  datatype Message = Message(title: Option<string>, body: Option<string>, link: Option<Uri>,
                             media: Option<string>, buttons: seq<Button>)

  /** CountlyConfigPush: whether an Application was given, the preferred
      provider and the intent allow-lists. */
  datatype PushConfig = PushConfig(applicationPresent: bool, provider: Option<Provider>,
                                   allowedIntentClassNames: set<string>, allowedIntentPackageNames: set<string>)

  datatype InitResult = NullConfig | IllegalState | ProviderMissing | Initialized

  /** Effects of init on its collaborators. */
  datatype PushEffect = StoredProvider(code: int) | RegisteredCallbacks | StartedHmsTokenThread

  /** One PendingIntent of a notification: its request code and the action
      index and allow-lists carried by the intent it wraps. */
  datatype PendingAction = PendingAction(requestCode: int, actionIndex: int,
                                         allowedClassNames: set<string>, allowedPackageNames: set<string>)

  /** How a display call ends: it returns a Boolean (TRUE, FALSE or null)
      or a NullPointerException escapes. */
  datatype Call = Returned(result: JBool) | ThrewNullPointer

  /** What a displayMessage call put on screen. */
  datatype Display = NotDisplayed | Dialog(activity: ActivityId) | Notification(actions: seq<PendingAction>)

  datatype DialogButtonKind = Neutral | Positive
  datatype DialogButton = DialogButton(kind: DialogButtonKind, title: Option<string>)

  /** DialogInterface.BUTTON_POSITIVE and BUTTON_NEUTRAL. */
  const BUTTON_POSITIVE: int := -1
  const BUTTON_NEUTRAL: int := -3

  // ------------------------------------------------------- provider choice

  predicate ClassExists(p: Provider, fcmClassExists: bool, hmsClassExists: bool) {
    match p
    case FCM => fcmClassExists
    case HMS => hmsClassExists
  }

  /** The provider init settles on: a preferred provider whose messaging
      class is missing is swapped for the other one; without a preference
      FCM is tried first, then HMS. */
  function ResolvedProvider(preferred: Option<Provider>, fcmClassExists: bool, hmsClassExists: bool): (r: Option<Provider>)
    ensures preferred.Some? && ClassExists(preferred.value, fcmClassExists, hmsClassExists) ==> r == preferred
    ensures preferred == Some(FCM) && !fcmClassExists ==> r == Some(HMS)
    ensures preferred == Some(HMS) && !hmsClassExists ==> r == Some(FCM)
    ensures preferred.None? && fcmClassExists ==> r == Some(FCM)
    ensures preferred.None? && !fcmClassExists && hmsClassExists ==> r == Some(HMS)
    ensures (r.Some? && ClassExists(r.value, fcmClassExists, hmsClassExists)) <==> fcmClassExists || hmsClassExists
  {
    match preferred
    case None => if fcmClassExists then Some(FCM) else if hmsClassExists then Some(HMS) else None
    case Some(FCM) => if fcmClassExists then Some(FCM) else Some(HMS)
    case Some(HMS) => if hmsClassExists then Some(HMS) else Some(FCM)
  }

  /** Init fetches the HMS token in the background on EMUI 10 with push
      consent. */
  predicate StartsHmsTokenThread(p: Provider, pushConsent: bool, buildDisplay: Option<string>) {
    p == HMS && pushConsent && StartsWith(EmuiVersion(buildDisplay), "10")
  }

  /** The code CountlyStore keeps for a provider. */
  function ProviderCode(p: Provider): int {
    if p == FCM then 1 else 2
  }

  // ------------------------------------------------------------ EMUI

  /** getEMUIVersion: the trimmed text of the build display string from the
      first space up to the first '(' (or to the end when there is none);
      "" whenever Java would throw. */
  function EmuiVersion(display: Option<string>): string
  {
    if display.None? then ""
    else
      var line := display.value;
      var spaceIndex := IndexOfChar(line, ' ');
      var lastIndex := IndexOfChar(line, '(');
      var end := if lastIndex != -1 then lastIndex else |line|;
      // substring(spaceIndex, end) throws unless 0 <= spaceIndex <= end
      if 0 <= spaceIndex <= end then Trim(line[spaceIndex..end]) else ""
  }

  /** The version is "" for a null string, for one without a space and for
      one whose first '(' comes before the first space (the cases where
      substring throws); otherwise it is trimmed, holds no '(' and is found
      in the display string after the first space. */
  lemma EmuiVersionShape(display: Option<string>)
    ensures display.None? ==> EmuiVersion(display) == ""
    ensures display.Some? && ' ' !in display.value ==> EmuiVersion(display) == ""
    ensures (display.Some? && '(' in display.value && ' ' in display.value &&
             IndexOfChar(display.value, '(') < IndexOfChar(display.value, ' ')) ==> EmuiVersion(display) == ""
    ensures var r := EmuiVersion(display);
            r == [] || (!IsTrimmable(r[0]) && !IsTrimmable(r[|r| - 1]))
    ensures '(' !in EmuiVersion(display)
    ensures var r := EmuiVersion(display);
            r != "" ==> display.Some? && exists i :: OccursAt(display.value, r, i) && IndexOfChar(display.value, ' ') < i
  {
    if display.Some? {
      var line := display.value;
      var spaceIndex := IndexOfChar(line, ' ');
      var lastIndex := IndexOfChar(line, '(');
      var end := if lastIndex != -1 then lastIndex else |line|;
      if 0 <= spaceIndex <= end {
        assert line[..|line|] == line;
        EmuiPiece(line, spaceIndex, end, EmuiVersion(display));
      }
    }
  }

  /** The trimmed piece between the first space and `end` (the first '(' or
      the end of the line) lies in the line after the space and holds no '('. */
  lemma EmuiPiece(line: string, spaceIndex: int, end: int, r: string)
    requires 0 <= spaceIndex <= end <= |line|
    requires spaceIndex < end ==> line[spaceIndex] == ' '
    requires '(' !in line[..end]
    requires r == Trim(line[spaceIndex..end])
    ensures '(' !in r
    ensures r != "" ==> exists i :: OccursAt(line, r, i) && spaceIndex < i
  {
    var piece := line[spaceIndex..end];
    var i :| OccursAt(piece, r, i);
    OccursInSlice(line, spaceIndex, end, r, i);
    forall k | 0 <= k < |r| ensures r[k] != '(' {
      assert r[k] == line[..end][spaceIndex + i + k];
    }
    if r != "" {
      assert piece[i] == r[0];
      assert piece[0] == ' ';
    }
  }

  /** With a space before the first '(', the version is the trimmed text
      between them. */
  lemma EmuiVersionBetween(line: string, spaceIndex: int, parenIndex: int)
    requires 0 <= spaceIndex <= parenIndex < |line|
    requires IndexOfChar(line, ' ') == spaceIndex && IndexOfChar(line, '(') == parenIndex
    ensures EmuiVersion(Some(line)) == Trim(line[spaceIndex..parenIndex])
  {
  }

  /** Without a '(', the version is the trimmed text from the first space
      to the end. */
  lemma EmuiVersionToEnd(line: string, spaceIndex: int)
    requires 0 <= spaceIndex < |line|
    requires IndexOfChar(line, ' ') == spaceIndex && IndexOfChar(line, '(') == -1
    ensures EmuiVersion(Some(line)) == Trim(line[spaceIndex..])
  {
    var tail := line[spaceIndex..];
    assert line[spaceIndex..|line|] == tail;
  }

  /** A build display string of the Huawei shape "<model> <version>(<build>)"
      gives the version that init tests for the prefix "10". */
  lemma EmuiVersionExample(line: string)
    requires line == "E 10.1(C)"
    ensures EmuiVersion(Some(line)) == "10.1"
  {
    IndicesExample(line);
    EmuiVersionBetween(line, 1, 6);
    assert line[1..6] == " 10.1";
    TrimExample();
  }

  lemma IndicesExample(line: string)
    requires line == "E 10.1(C)"
    ensures IndexOfChar(line, ' ') == 1 && IndexOfChar(line, '(') == 6
  {
    assert line[..1] == "E";
    IndexOfCharIs(line, ' ', 1);
    assert line[..6] == "E 10.1";
    IndexOfCharIs(line, '(', 6);
  }

  lemma TrimStartExample()
    ensures TrimStart(" 10.1") == "10.1"
  {
    var t := " 10.1";
    assert t[0] == ' ';
    assert t[1..] == "10.1";
    assert "10.1"[0] == '1';
  }

  lemma TrimEndExample()
    ensures TrimEnd("10.1") == "10.1"
  {
    assert "10.1"[3] == '1';
  }

  lemma TrimExample()
    ensures Trim(" 10.1") == "10.1"
  {
    TrimStartExample();
    TrimEndExample();
  }

  // ------------------------------------------------------- accent colour

  /** Math.min(255, Math.max(0, x)). */
  function Clamp(x: int): (r: int)
    ensures 0 <= r <= 255
    ensures 0 <= x <= 255 ==> r == x
    ensures x < 0 ==> r == 0
    ensures x > 255 ==> r == 255
  {
    if x < 0 then 0 else if x > 255 then 255 else x
  }

  predicate IsChannel(x: int) {
    0 <= x <= 255
  }

  /** The 32 bits of a Java int as an unsigned number. */
  function Bits(c: int): (u: int)
    ensures 0 <= u < TWO_32
  {
    c % TWO_32
  }

  /** Color.alpha, Color.red, Color.green and Color.blue. */
  function Alpha(c: int): int { Bits(c) / 0x100_0000 }
  function Red(c: int): int { Bits(c) / 0x1_0000 % 0x100 }
  function Green(c: int): int { Bits(c) / 0x100 % 0x100 }
  function Blue(c: int): int { Bits(c) % 0x100 }

  /** Color.argb: the four channels packed into one Java int. */
  function Argb(alpha: int, red: int, green: int, blue: int): (c: int)
    requires IsChannel(alpha) && IsChannel(red) && IsChannel(green) && IsChannel(blue)
    ensures IsInt32(c)
    ensures Alpha(c) == alpha && Red(c) == red && Green(c) == green && Blue(c) == blue
  {
    var u := alpha * 0x100_0000 + red * 0x1_0000 + green * 0x100 + blue;
    var c := Wrap32(u);
    assert Bits(c) == u;
    ChannelsOf(alpha, red, green, blue, u);
    c
  }

  lemma ChannelsOf(alpha: int, red: int, green: int, blue: int, u: int)
    requires IsChannel(alpha) && IsChannel(red) && IsChannel(green) && IsChannel(blue)
    requires u == alpha * 0x100_0000 + red * 0x1_0000 + green * 0x100 + blue
    ensures u / 0x100_0000 == alpha
    ensures u / 0x1_0000 % 0x100 == red
    ensures u / 0x100 % 0x100 == green
    ensures u % 0x100 == blue
  {
    assert u / 0x1_0000 == alpha * 0x100 + red;
    assert u / 0x100 == alpha * 0x1_0000 + red * 0x100 + green;
  }

  // ------------------------------------------------------- dialog buttons

  /** addButtons: the first button becomes the neutral dialog button, the
      second the positive one; further buttons are not shown. */
  function DialogButtons(buttons: seq<Button>): (r: seq<DialogButton>)
    ensures |r| == if |buttons| < 2 then |buttons| else 2
    ensures forall p :: 0 <= p < |r| ==> r[p].title == buttons[p].title
    ensures |r| > 0 ==> r[0].kind == Neutral
    ensures |r| > 1 ==> r[1].kind == Positive
  {
    if |buttons| == 0 then []
    else [DialogButton(Neutral, buttons[0].title)] + if |buttons| > 1 then [DialogButton(Positive, buttons[1].title)] else []
  }

  /** The `which` code Android passes to the listener of a dialog button. */
  function WhichOf(kind: DialogButtonKind): int {
    if kind == Positive then BUTTON_POSITIVE else BUTTON_NEUTRAL
  }

  /** The click listener of addButtons: the action index it records and the
      position of the button whose link it opens. */
  function DialogClick(which: int): (r: (int, int))
    ensures r.0 == r.1 + 1
    ensures which == BUTTON_POSITIVE ==> r == (2, 1)
    ensures which != BUTTON_POSITIVE ==> r == (1, 0)
  {
    if which == BUTTON_POSITIVE then (2, 1) else (1, 0)
  }

  /** Each dialog button records the index of its own position plus one and
      opens the link of the button it shows. */
  lemma DialogButtonsOpenTheirOwnLink(buttons: seq<Button>, p: int)
    requires 0 <= p < |DialogButtons(buttons)|
    ensures DialogClick(WhichOf(DialogButtons(buttons)[p].kind)) == (p + 1, p)
  {
  }

  // ------------------------------------------------------- static state

  /** The static fields of CountlyPush. */
  class PushState {
    var countlyConfigPush: Option<PushConfig>
    /** Whether the lifecycle callbacks and the consent receiver exist. */
    var callbacksRegistered: bool
    var initFinished: bool
    /** The tracked current activity. */
    var activity: Option<ActivityId>
    var notificationAccentColor: Option<int>
    ghost var effects: seq<PushEffect>

    /** Init stores its configuration before it can finish. */
    ghost predicate Valid()
      reads this
    {
      initFinished ==> countlyConfigPush.Some?
    }

    constructor ()
      ensures Valid()
      ensures countlyConfigPush.None? && !callbacksRegistered && !initFinished
      ensures activity.None? && notificationAccentColor.None? && effects == []
    {
      countlyConfigPush := None;
      callbacksRegistered := false;
      initFinished := false;
      activity := None;
      notificationAccentColor := None;
      effects := [];
    }

    /** The allow-lists notifications carry: empty until init finished. */
    function AllowedClassNames(): set<string>
      reads this
      requires Valid()
    {
      if initFinished then countlyConfigPush.value.allowedIntentClassNames else {}
    }

    function AllowedPackageNames(): set<string>
      reads this
      requires Valid()
    {
      if initFinished then countlyConfigPush.value.allowedIntentPackageNames else {}
    }

    /** init(CountlyConfigPush). A null configuration is ignored; one without
        an Application throws IllegalStateException before anything is set.
        Otherwise the configuration is stored with its provider resolved; the
        init goes on only when a messaging class is on the class path, then
        stores the provider code, registers the callbacks once, starts the
        HMS token thread on EMUI 10 with push consent, and finishes. */
    method Init(cfg: Option<PushConfig>, fcmClassExists: bool, hmsClassExists: bool,
                pushConsent: bool, buildDisplay: Option<string>) returns (r: InitResult)
      requires Valid()
      modifies this`countlyConfigPush, this`callbacksRegistered, this`initFinished, this`effects
      ensures Valid()
      ensures cfg.None? ==> r == NullConfig && unchanged(this)
      ensures cfg.Some? && !cfg.value.applicationPresent ==> r == IllegalState && unchanged(this)
      ensures cfg.Some? && cfg.value.applicationPresent ==>
                countlyConfigPush == Some(cfg.value.(provider := ResolvedProvider(cfg.value.provider, fcmClassExists, hmsClassExists)))
      ensures cfg.Some? && cfg.value.applicationPresent ==>
                (r == Initialized <==> fcmClassExists || hmsClassExists) && (r == Initialized || r == ProviderMissing)
      ensures r == ProviderMissing ==>
                initFinished == old(initFinished) && callbacksRegistered == old(callbacksRegistered) && effects == old(effects)
      ensures r == Initialized ==>
                countlyConfigPush.Some? && countlyConfigPush.value.provider.Some? &&
                var p := countlyConfigPush.value.provider.value;
                initFinished && callbacksRegistered &&
                effects == old(effects) + [StoredProvider(ProviderCode(p))]
                           + (if old(callbacksRegistered) then [] else [RegisteredCallbacks])
                           + (if StartsHmsTokenThread(p, pushConsent, buildDisplay) then [StartedHmsTokenThread] else [])
    {
      if cfg.None? {
        return NullConfig;
      }
      if !cfg.value.applicationPresent {
        return IllegalState;
      }
      var c := cfg.value.(provider := ResolvedProvider(cfg.value.provider, fcmClassExists, hmsClassExists));
      countlyConfigPush := Some(c);

      if c.provider == Some(FCM) && !fcmClassExists {
        return ProviderMissing;
      } else if c.provider == Some(HMS) && !hmsClassExists {
        return ProviderMissing;
      } else if c.provider.None? {
        return ProviderMissing;
      }

      effects := effects + [StoredProvider(ProviderCode(c.provider.value))];
      if !callbacksRegistered {
        callbacksRegistered := true;
        effects := effects + [RegisteredCallbacks];
      }
      if c.provider == Some(HMS) && pushConsent {
        var version := EmuiVersion(buildDisplay);
        if StartsWith(version, "10") {
          effects := effects + [StartedHmsTokenThread];
        }
      }
      initFinished := true;
      return Initialized;
    }

    /** onActivityStarted: the started activity becomes the tracked one. */
    method OnActivityStarted(a: ActivityId)
      modifies this`activity
      ensures activity == Some(a)
    {
      activity := Some(a);
    }

    /** onActivityStopped: tracking is cleared only when the stopped activity
        is the tracked one. */
    method OnActivityStopped(a: ActivityId)
      modifies this`activity
      ensures old(activity) == Some(a) ==> activity.None?
      ensures old(activity) != Some(a) ==> activity == old(activity)
    {
      if activity == Some(a) {
        activity := None;
      }
    }

    /** setNotificationAccentColor: each channel is clamped into [0, 255]
        before the colour is packed and stored. */
    method SetNotificationAccentColor(alpha: int, red: int, green: int, blue: int)
      modifies this`notificationAccentColor
      ensures notificationAccentColor == Some(Argb(Clamp(alpha), Clamp(red), Clamp(green), Clamp(blue)))
      ensures var c := notificationAccentColor.value;
              Alpha(c) == Clamp(alpha) && Red(c) == Clamp(red) && Green(c) == Clamp(green) && Blue(c) == Clamp(blue)
    {
      var a := Clamp(alpha);
      var r := Clamp(red);
      var g := Clamp(green);
      var b := Clamp(blue);
      notificationAccentColor := Some(Argb(a, r, g, b));
    }

    /** displayNotification. The guards in order: no context gives FALSE, no
        push consent null, no message or neither title nor body null, no
        NotificationManager FALSE. Then the body's intent is built: without a
        notification intent of the caller's, the app's launch intent is
        used, and when the package has none a NullPointerException escapes.
        Otherwise the notification is posted and TRUE returned. The body's
        intent carries action index 0 and request code msgHash; button i
        carries index i + 1 and request code msgHash + i + 1 (wrapping as a
        Java int). */
    method DisplayNotification(contextPresent: bool, pushConsent: bool, msg: Option<Message>,
                               managerPresent: bool, notificationIntentPresent: bool, launchIntentPresent: bool,
                               msgHash: int) returns (c: Call, actions: seq<PendingAction>)
      requires Valid()
      requires IsInt32(msgHash)
      ensures !contextPresent ==> c == Returned(JFalse)
      ensures contextPresent && !pushConsent ==> c == Returned(JNull)
      ensures contextPresent && pushConsent && (msg.None? || (msg.value.title.None? && msg.value.body.None?)) ==>
                c == Returned(JNull)
      ensures contextPresent && pushConsent && msg.Some? && (msg.value.title.Some? || msg.value.body.Some?) ==>
                c == (if !managerPresent then Returned(JFalse)
                      else if !notificationIntentPresent && !launchIntentPresent then ThrewNullPointer
                      else Returned(JTrue))
      ensures c != Returned(JTrue) ==> actions == []
      ensures c == Returned(JTrue) ==>
                msg.Some? && |actions| == |msg.value.buttons| + 1 &&
                forall k :: 0 <= k < |actions| ==>
                  actions[k] == PendingAction(Wrap32(msgHash + k), k, AllowedClassNames(), AllowedPackageNames())
    {
      actions := [];
      if !contextPresent {
        return Returned(JFalse), actions;
      }
      if !pushConsent {
        return Returned(JNull), actions;
      }
      if msg.None? {
        return Returned(JNull), actions;
      } else if msg.value.title.None? && msg.value.body.None? {
        return Returned(JNull), actions;
      }
      var allowedClassNames: set<string>;
      var allowedPackageNames: set<string>;
      if !initFinished {
        allowedClassNames, allowedPackageNames := {}, {};
      } else {
        allowedClassNames := countlyConfigPush.value.allowedIntentClassNames;
        allowedPackageNames := countlyConfigPush.value.allowedIntentPackageNames;
      }
      if !managerPresent {
        return Returned(JFalse), actions;
      }
      if !notificationIntentPresent && !launchIntentPresent {
        // actionIntent calls putExtra on the null launch intent
        return ThrewNullPointer, [];
      }
      var buttons := msg.value.buttons;
      actions := [PendingAction(msgHash, 0, allowedClassNames, allowedPackageNames)];
      for i := 0 to |buttons|
        invariant |actions| == i + 1
        invariant forall k :: 0 <= k <= i ==>
                    actions[k] == PendingAction(Wrap32(msgHash + k), k, allowedClassNames, allowedPackageNames)
      {
        actions := actions + [PendingAction(Wrap32(msgHash + i + 1), i + 1, allowedClassNames, allowedPackageNames)];
      }
      return Returned(JTrue), actions;
    }

    /** displayDialog's guards: no activity gives FALSE, no push consent
        null; otherwise the dialog is built in the background and TRUE is
        returned. */
    method DisplayDialog(a: Option<ActivityId>, pushConsent: bool) returns (r: JBool)
      ensures a.None? ==> r == JFalse
      ensures a.Some? ==> r == (if pushConsent then JTrue else JNull)
    {
      if a.None? {
        return JFalse;
      }
      if !pushConsent {
        return JNull;
      }
      return JTrue;
    }

    /** displayMessage: no context gives FALSE; no message or no body null;
        an app in the foreground with a tracked activity gets a dialog, every
        other case a notification, whose exception escapes through here. */
    method DisplayMessage(contextPresent: bool, msg: Option<Message>, foreground: bool, pushConsent: bool,
                          managerPresent: bool, notificationIntentPresent: bool, launchIntentPresent: bool,
                          msgHash: int) returns (c: Call, shown: Display)
      requires Valid()
      requires IsInt32(msgHash)
      ensures !contextPresent ==> c == Returned(JFalse) && shown == NotDisplayed
      ensures contextPresent && (msg.None? || msg.value.body.None?) ==> c == Returned(JNull) && shown == NotDisplayed
      ensures contextPresent && msg.Some? && msg.value.body.Some? && foreground && activity.Some? ==>
                c == Returned(if pushConsent then JTrue else JNull) &&
                shown == (if pushConsent then Dialog(activity.value) else NotDisplayed)
      ensures contextPresent && msg.Some? && msg.value.body.Some? && !(foreground && activity.Some?) ==>
                c == (if !pushConsent then Returned(JNull)
                      else if !managerPresent then Returned(JFalse)
                      else if !notificationIntentPresent && !launchIntentPresent then ThrewNullPointer
                      else Returned(JTrue)) &&
                (shown.Notification? <==> c == Returned(JTrue)) && !shown.Dialog?
      ensures shown.Notification? ==>
                msg.Some? && |shown.actions| == |msg.value.buttons| + 1 &&
                forall k :: 0 <= k < |shown.actions| ==> shown.actions[k].actionIndex == k
    {
      if !contextPresent {
        return Returned(JFalse), NotDisplayed;
      }
      if msg.None? {
        return Returned(JNull), NotDisplayed;
      } else if msg.value.body.None? {
        return Returned(JNull), NotDisplayed;
      } else if foreground && activity.Some? {
        var r := DisplayDialog(activity, pushConsent);
        c := Returned(r);
        shown := if r == JTrue then Dialog(activity.value) else NotDisplayed;
      } else {
        var actions;
        c, actions := DisplayNotification(contextPresent, pushConsent, msg, managerPresent,
                                          notificationIntentPresent, launchIntentPresent, msgHash);
        shown := if c == Returned(JTrue) then Notification(actions) else NotDisplayed;
      }
    }
  }
}
