# Countly Android SDK: sessions and push decision logic in Dafny

This project models four parts of the Countly Android SDK and proves properties of the model.

- **Session lifecycle** (`ModuleSessions`, `sessions.dfy`). One field, the start marker of the
  unreported interval, decides whether a session runs: a marker above zero means running.
  - Begin, update and end are gated by the `sessions` consent.
  - The public `Sessions` interface is also gated by manual session control, and its update by hybrid mode.
  - The requests the module hands to its collaborators are recorded in a ghost log:
    begin, update(seconds), end(seconds, device id override), flush events, reset first view, send location.
  - The clock reading and the consent provider's answer are parameters of each call.
- **Messaging string helpers** (`messaging/Utils`, `messaging_utils.dfy`):
  - `hex` builds an upper-case table lookup into a `char` array, then lower-cases it;
  - `join` appends elements and separators in a loop;
  - the null-safe `isEmpty`, `isNotEmpty`, `isEqual`, `isNotEqual` and `contains`.
  
  The development beside them includes a hex decoder, with the round trip and injectivity proved.
- **Push redirect filter** (`CountlyPushActivity.performPushAction`, `push_activity.dfy`).
  A tap on a notification goes through a chain of guards before anything starts:
  - the URI-permission flag guard;
  - the package allow-list, to which the app's own package is added first;
  - the class/package prefix test;
  - the bundle and message lookups.
  
  The tapped action index is then routed: index 0 is the body, index k > 0 is button k - 1.
  The allow-list of class names is extended, but no decision consults it; the model shows this,
  because no outcome depends on `Whitelist.classNames`.
- **Push decision logic** (`CountlyPush`, `push.dfy`). The static fields become the class `Push.PushState`. It covers:
  - provider resolution and the init sequence;
  - the current activity tracked by the lifecycle callbacks;
  - the notification accent colour;
  - the EMUI version parsed from the build display string;
  - the guard chains of `displayMessage`, `displayNotification` and `displayDialog`;
  - the action indices and request codes the notification and dialog give to each tappable part.

`java_lang.dfy` states the Java semantics the code depends on:
- `null` as `Option`, and the nullable `Boolean` as `JBool`;
- 32-bit `int` wrap-around;
- `String.indexOf`, `trim`, `startsWith` and `contains`; `substring` is a slice guarded by the range in which Java does not throw;
- ASCII `toLowerCase`.

Where Java throws and the code catches the exception, the model returns the value the catch produces.
Three escaping exceptions are modelled as outcomes:
- a NullPointerException in the redirect activity is `Crashed`;
- the IllegalStateException of `init` without an Application is `IllegalState`;
- the NullPointerException of `displayNotification` and `displayMessage` when there is no launch intent to wrap is `ThrewNullPointer`.

## Model

| member | source | states |
|---|---|---|
| Sessions.RoundedSeconds | sdk/src/main/java/ly/count/android/sdk/ModuleSessions.java:112-117 | the reported seconds lie within half a second of the nanosecond delta (halves up); zero delta gives 0, non-negative gives non-negative |
| Sessions.RoundedSecondsIsNearest | sdk/src/main/java/ly/count/android/sdk/ModuleSessions.java:110-116 | rounding to the nearest second: any whole number within half a second of the delta is the one reported |
| Sessions.ModuleSessions.constructor | sdk/src/main/java/ly/count/android/sdk/ModuleSessions.java:19-41 | mode flags copied from the configuration; the update switch is only turned on, never off; no session runs and nothing is logged |
| Sessions.ModuleSessions.RoundedSecondsSinceLastSessionDurationUpdate | sdk/src/main/java/ly/count/android/sdk/ModuleSessions.java:112-117 | reports the rounded interval since the marker and moves the marker to now, so a second read at the same instant reports 0 |
| Sessions.ModuleSessions.BeginSessionInternal | sdk/src/main/java/ly/count/android/sdk/ModuleSessions.java:43-59 | without consent nothing changes; with consent the marker becomes now and one begin request is logged, even when a session already runs; with now > 0 the session then runs (`SessionIsRunning`: the marker is positive) |
| Sessions.ModuleSessions.UpdateSessionInternal | sdk/src/main/java/ly/count/android/sdk/ModuleSessions.java:61-75 | without consent or with updates disabled nothing changes; otherwise one update with the elapsed rounded seconds is logged and the marker moves to now |
| Sessions.ModuleSessions.EndSessionInternal | sdk/src/main/java/ly/count/android/sdk/ModuleSessions.java:80-97 | without consent nothing changes; otherwise flush events, end(elapsed, override) and reset first view are logged in that order, and the session no longer runs |
| Sessions.ModuleSessions.OnConsentChanged | sdk/src/main/java/ly/count/android/sdk/ModuleSessions.java:120-144 | unrelated deltas change nothing; granting begins a session only under automatic control in the foreground; revoking sends the location if no begin was ever sent, then ends a running session (clearing the marker) or only resets the first view |
| Sessions.ModuleSessions.InitFinished | sdk/src/main/java/ly/count/android/sdk/ModuleSessions.java:147-152 | a session begins exactly under automatic control, in the foreground, with consent |
| Sessions.ModuleSessions.Halt | sdk/src/main/java/ly/count/android/sdk/ModuleSessions.java:155-157 | the marker is cleared and no session runs (`SessionIsRunning`, ModuleSessions.java:104-107, is the marker being positive) |
| Sessions.Sessions.BeginSession | sdk/src/main/java/ly/count/android/sdk/ModuleSessions.java:160-171 | a no-op unless manual control is on; otherwise the effect of the internal begin |
| Sessions.Sessions.UpdateSession | sdk/src/main/java/ly/count/android/sdk/ModuleSessions.java:173-189 | a no-op unless manual control is on and hybrid mode off; otherwise the effect of the internal update |
| Sessions.Sessions.EndSession | sdk/src/main/java/ly/count/android/sdk/ModuleSessions.java:191-202 | a no-op unless manual control is on; otherwise the internal end with no device id override |
| MessagingUtils.Join | sdk/src/main/java/ly/count/android/sdk/messaging/Utils.java:40-50 | the loop's result is the separator join of the elements' string values (null as "null"); "" for no elements, the element alone for one |
| MessagingUtils.JoinLength | sdk/src/main/java/ly/count/android/sdk/messaging/Utils.java:43-48 | the joined length is the total element length plus n - 1 separators |
| MessagingUtils.JoinLayout | sdk/src/main/java/ly/count/android/sdk/messaging/Utils.java:43-48 | element k sits at its offset in iteration order, and a separator follows it unless it is the last |
| MessagingUtils.NotEmptyMeansCharacters | sdk/src/main/java/ly/count/android/sdk/messaging/Utils.java:151-163 | `IsNotEmpty` holds exactly for a non-null string with at least one character; `IsEmpty` exactly for null or "" |
| MessagingUtils.IsEqualIsEquality | sdk/src/main/java/ly/count/android/sdk/messaging/Utils.java:169-178 | `IsEqual` is equality of nullable values (two nulls equal, null and non-null unequal), symmetric; `IsNotEqual` its negation |
| MessagingUtils.StringContains | sdk/src/main/java/ly/count/android/sdk/messaging/Utils.java:180-186 | false when either argument is null; otherwise true exactly when the part occurs somewhere in the string |
| MessagingUtils.ContainsEmptyAndSelf | sdk/src/main/java/ly/count/android/sdk/messaging/Utils.java:180-186 | every non-null string contains "" and itself |
| MessagingUtils.Hex | sdk/src/main/java/ly/count/android/sdk/messaging/Utils.java:213-221 | the array loop and the final lower-casing give 2·n characters, characters 2j and 2j+1 being the lower-case digits of the high and low nibble of byte j |
| MessagingUtils.Base16Table | sdk/src/main/java/ly/count/android/sdk/messaging/Utils.java:31 | entry d of the BASE_16 table is the upper-case digit d |
| MessagingUtils.HexOfLength | sdk/src/main/java/ly/count/android/sdk/messaging/Utils.java:214 | the encoding has exactly two characters per byte |
| MessagingUtils.HexOfLayout | sdk/src/main/java/ly/count/android/sdk/messaging/Utils.java:215-219 | characters 2j and 2j+1 are the digits of the high and low nibble of byte j |
| MessagingUtils.HexAlphabet | sdk/src/main/java/ly/count/android/sdk/messaging/Utils.java:220 | every output character is one of 0-9a-f; no upper case survives |
| MessagingUtils.HexRoundTrip | sdk/src/main/java/ly/count/android/sdk/messaging/Utils.java:213-221 | decoding the encoding gives back the signed bytes |
| MessagingUtils.HexDecodeCanonical | sdk/src/main/java/ly/count/android/sdk/messaging/Utils.java:213-221 | every string the decoder accepts is the encoding of what it decodes to |
| MessagingUtils.HexInjective | sdk/src/main/java/ly/count/android/sdk/messaging/Utils.java:213-221 | different byte arrays have different encodings |
| MessagingUtils.Unsigned | sdk/src/main/java/ly/count/android/sdk/messaging/Utils.java:216 | `& 0xFF` maps a signed byte to the value in [0, 256) congruent to it |
| MessagingUtils.LowNibble | sdk/src/main/java/ly/count/android/sdk/messaging/Utils.java:217-218 | `v >>> 4` and `v & 0x0F` split the unsigned byte into its two base-16 digits |
| Push.ResolvedProvider | sdk/src/main/java/ly/count/android/sdk/messaging/CountlyPush.java:721-731 | a preferred provider with its class is kept, FCM without its class becomes HMS and the reverse, no preference picks FCM then HMS; the result is usable exactly when one class exists |
| Push.PushState.constructor | sdk/src/main/java/ly/count/android/sdk/messaging/CountlyPush.java:61-80 | the static state starts empty: no configuration, no callbacks, init not finished, no activity, no accent colour |
| Push.PushState.Init | sdk/src/main/java/ly/count/android/sdk/messaging/CountlyPush.java:707-807 | null config ignored, missing Application throws before any change; the config is stored with its provider resolved; init finishes exactly when a messaging class exists, storing the provider code, registering the callbacks once and starting the HMS token thread on EMUI 10 with consent |
| Push.PushState.OnActivityStarted | sdk/src/main/java/ly/count/android/sdk/messaging/CountlyPush.java:754-756 | the started activity becomes the tracked one |
| Push.PushState.OnActivityStopped | sdk/src/main/java/ly/count/android/sdk/messaging/CountlyPush.java:767-771 | the tracked activity is cleared only when it is the stopped one; stopping another leaves it |
| Push.Clamp | sdk/src/main/java/ly/count/android/sdk/messaging/CountlyPush.java:848-851 | min(255, max(0, x)) lies in [0, 255] and is x itself inside that range |
| Push.Argb | sdk/src/main/java/ly/count/android/sdk/messaging/CountlyPush.java:855 | the packed Java int gives back each of the four channels |
| Push.PushState.SetNotificationAccentColor | sdk/src/main/java/ly/count/android/sdk/messaging/CountlyPush.java:847-856 | the stored colour's channels are the clamped arguments |
| Push.EmuiVersionShape | sdk/src/main/java/ly/count/android/sdk/messaging/CountlyPush.java:820-833 | `EmuiVersion` gives "" for a null string, no space, or '(' before the space (where substring throws and the catch returns ""); otherwise a trimmed piece without '(' found after the first space |
| Push.EmuiVersionBetween | sdk/src/main/java/ly/count/android/sdk/messaging/CountlyPush.java:823-828 | with the space before the first '(', the version is the trimmed text between them |
| Push.EmuiVersionToEnd | sdk/src/main/java/ly/count/android/sdk/messaging/CountlyPush.java:823-830 | without a '(', the version is the trimmed text from the first space to the end |
| Push.EmuiVersionExample | sdk/src/main/java/ly/count/android/sdk/messaging/CountlyPush.java:820-833 | "E 10.1(C)" gives "10.1" |
| Push.PushState.DisplayNotification | sdk/src/main/java/ly/count/android/sdk/messaging/CountlyPush.java:353-474 | guards in order: no context FALSE, no consent null, no message or no title and body null, no manager FALSE, no notification intent and no launch intent a NullPointerException, else TRUE; the body carries index 0 and code hash, button i index i+1 and code hash+i+1 as a Java int; allow-lists empty before init finished |
| Push.PushState.DisplayDialog | sdk/src/main/java/ly/count/android/sdk/messaging/CountlyPush.java:483-492 | no activity FALSE, no consent null, else TRUE |
| Push.PushState.DisplayMessage | sdk/src/main/java/ly/count/android/sdk/messaging/CountlyPush.java:316-342 | no context FALSE; no message or no body null; foreground with a tracked activity shows the dialog; everything else goes to the notification, whose NullPointerException escapes, and which numbers its actions 0..n |
| Push.DialogButtons | sdk/src/main/java/ly/count/android/sdk/messaging/CountlyPush.java:594-618 | the first button becomes the neutral one, the second the positive one, each with its title; no further button is shown |
| Push.DialogClick | sdk/src/main/java/ly/count/android/sdk/messaging/CountlyPush.java:600-606 | positive records index 2 and opens button 1; any other button records index 1 and opens button 0 |
| Push.DialogButtonsOpenTheirOwnLink | sdk/src/main/java/ly/count/android/sdk/messaging/CountlyPush.java:600-616 | the dialog button at position p records index p+1 and opens the link of button p |
| PushActivity.IsTrustedPackage | sdk/src/main/java/ly/count/android/sdk/messaging/CountlyPushActivity.java:57-64 | the loop with break finds the package exactly when it is in the allow-list |
| PushActivity.ActionTarget | sdk/src/main/java/ly/count/android/sdk/messaging/CountlyPushActivity.java:113-144 | index 0 opens the message link with the body flags, or the wrapped intent with NEW_TASK; index k in 1..n opens button k-1's link; any other index fails the lookup |
| PushActivity.PerformPushAction | sdk/src/main/java/ly/count/android/sdk/messaging/CountlyPushActivity.java:27-145 | guards in order: null intent, URI grant flags, then with checks on a null component or config crashes, an untrusted package (own package added) and a class outside the package stop; then bundle and message; past them the index (default 0) is recorded, the notification cancelled, dialogs closed before Android 12, and the tapped part launched |
| PushActivity.NotificationActionsRoute | sdk/src/main/java/ly/count/android/sdk/messaging/CountlyPushActivity.java:113-144 | every action a notification carries routes to its own part: index 0 to the body, index k to button k-1, never to a failing lookup |
| PushActivity.DialogAgreesWithNotification | sdk/src/main/java/ly/count/android/sdk/messaging/CountlyPush.java:600-616 | the index a dialog button records, routed through the redirect activity, opens the same link the dialog button opens |

## Left out

- The view tracker and segmentation composer (`ModuleViews`), which is not part of this model; `resetFirstView` is only a log entry.
- The test and demo sources.
- Notification and dialog construction (Notification.Builder, AlertDialog, channels, sound, badge). This is Android UI. `displayNotification` is modelled by its result and the actions it attaches.
- `loadImage`: a network download on a background thread with retries.
- `isAppRunningInForeground`, `getPushConsent`, the consent provider and the lifecycle state. They are boolean parameters.
- `System.nanoTime` is the `now` parameter. `Build.DISPLAY` and `Build.VERSION.SDK_INT` are parameters too.
- `getToken`, `onTokenRefresh`, the reflective class probes and the token thread's body. The probes are boolean parameters, and the thread is only a logged effect.
- `urlencode`, `urldecode`, `digestHex`, `readStream` and `API`. These are JDK and platform wrappers.
- The `synchronized` blocks of the `Sessions` interface. Each call is atomic in the model.
- The collaborators (request queue, device metrics, location module, event queue, view module). They appear only as entries in the ghost request log.
- `CountlyStore.storeMessagingProvider` and the registration of the lifecycle callbacks and the consent receiver. They are ghost effects of `Init`.
- Sessions.RoundedSeconds: models `Math.round` of the double quotient with exact integer arithmetic. It does not model floating-point rounding of very large deltas, or the `(int)` truncation of a result beyond 32 bits.
- Sessions.ModuleSessions.OnConsentChanged: the consent answer that the inner begin/end read is one parameter (`sessionsConsent`), separate from the delta's `newConsent`.
- MessagingUtils.Join: elements are already strings (`Option<string>`, with null printed as "null"). Java's `toString` of arbitrary objects is not modelled.
- MessagingUtils.IsEqualIsEquality: `a.equals(b)` is taken as value equality of the model type; a class with its own `equals` is not modelled.
- MessagingUtils.Join: a null collection makes the Java code throw a NullPointerException; a `seq` parameter cannot be null, so that case is not modelled.
- MessagingUtils.Hex: a null byte array makes the Java code throw a NullPointerException; a `seq` parameter cannot be null, so that case is not modelled. `toLowerCase` is modelled on ASCII letters only. That is all the upper-case table produces.
- PushActivity.PerformPushAction: the allow-lists come from a configuration object that is deserialised anew for each intent. Its in-place `add` is therefore a local set union. The `CountlyConfigPush` whitelist fields are not shown in the source, so the whitelist is a value in the intent. Whether `startActivity` itself succeeds is not modelled.
- Push.PushState.DisplayNotification: whether the caller passed a notification intent and whether the package has a launch intent are two parameters, taken once for the body's intent; the package manager lookup is not modelled. The request code is the message's `hashCode()`, given as a parameter. The message's own hashing is not modelled.
- Push.PushState.DisplayMessage: whether the app has a launch intent is a parameter, like the caller's notification intent; the package manager lookup is not modelled.
- Push.PushState.DisplayDialog: only the guards and the result are modelled. The dialog contents are in `DialogButtons` and `DialogClick`.
