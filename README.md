# Navigation notification service: direction table and tick loop

A Dafny model of the mock routing service in the car app library showcase
(`NavigationNotificationService`). It covers two pieces. The first is the direction table
`getDirectionInfo(int)`. It reduces the notification count modulo 35 with Java's remainder
and picks one of four bands: "Go Straight", "Turn Right", "Take 520" and "Gas Station". Each
band fixes a title, an icon and the `onlyAlertOnce` flag, and counts a distance down. The
distance is shown through `DecimalFormat("#.##")` with `RoundingMode.DOWN`. The second piece
is the tick loop of the service. It consists of the counter `mNotificationCount`, the
Handler's queue of pending `MSG_SEND_NOTIFICATION` messages, and the callbacks
`onStartCommand`, `handleMessage` and `onDestroy`.

Files:

- `decimal_format.dfy` (module `DecimalFormat`): the `"#.##"`/`DOWN` formatter on exact
  non-negative rationals, and a reader of the same notation that serves as its inverse. The
  predicate `Canonical` is the shape of a `"#.##"` text; the shape and the value read back
  determine the text (`CanonicalUnique`).
- `directions.dfy` (module `Directions`): `GetDirectionInfo` follows the source's if/else
  chain. It is checked against an independent band table (`Low`, `High`, `Title`, `IconOf`,
  `Step`, `First`, `Last`).
- `notification_service.dfy` (module `NavigationService`): the class
  `NotificationService` has fields `count` (a Java int), `queue` (the codes of the pending
  messages, oldest first) and `posted` (the counts of the notifications handed to the
  platform). Its invariant `Valid()` says two things. The counter equals the number of notify
  posts so far, wrapped to a Java int. The i-th notify post was built from count i.

Points where the model follows the code:

- The distances are exact numbers of tenths of the unit: `(10 - r) * 0.1` km is 10 - r
  tenths of a km, `(20 - r) * 0.5` km is (20 - r) * 5 tenths, and `(25 - r) * 40` m is
  (25 - r) * 400 tenths of a metre. Each of these values has at most two fraction digits, so
  truncation to hundredths loses nothing (`BranchDistance`). The labels run from "1km" down to "0.1km",
  from "5km" to "0.5km", from "200m" to "40m", and from "1km" to "0.1km".
- In `java.text.DecimalFormat` the pattern `"#.##"` gets one minimum integer digit. So 0.1
  prints as "0.1", with no grouping and no trailing fraction zeros.
- `mNotificationCount` is a Java `int`, and `++` wraps from 2^31 - 1 to -2^31. The model
  keeps that: `Wrap32` and `Increment`. `getDirectionInfo` uses Java's truncating `%`, so
  a wrapped negative count falls into the else branch (`NegativeCount`).
- `onStartCommand` posts the *current* count, not count 0. It would be non-zero on a second
  start. Each call queues another message, so two starts leave two ticks pending and the
  counter then advances twice per round. Delivery keeps the number of pending ticks
  (`DeliverNext`).
- The class comment of `getDirectionInfo` speaks of "5 directions", but the code has four
  bands. The model follows the code.

## Model

| member | source | states |
|---|---|---|
| `DecimalFormat.NatToString` | Auto/car_app_library/showcase/src/main/java/com/google/android/libraries/car/app/samples/showcase/navigation/NavigationNotificationService.java:186 | The integer digits of `"#.##"`: a non-empty string of digits whose first digit is '0' exactly when the number is 0, and which is then "0". `ParseNatToString` proves it reads back as the number. |
| `DecimalFormat.ParseNatToString` | Auto/car_app_library/showcase/src/main/java/com/google/android/libraries/car/app/samples/showcase/navigation/NavigationNotificationService.java:186 | The integer part of a formatted number, read back as digits, gives the number itself. |
| `DecimalFormat.Truncate` | Auto/car_app_library/showcase/src/main/java/com/google/android/libraries/car/app/samples/showcase/navigation/NavigationNotificationService.java:187 | `RoundingMode.DOWN` to two decimals: the kept hundredths h satisfy h/100 <= num/den < (h+1)/100. |
| `DecimalFormat.FormatHundredths` | Auto/car_app_library/showcase/src/main/java/com/google/android/libraries/car/app/samples/showcase/navigation/NavigationNotificationService.java:186 | The shape of `"#.##"`: at least one integer digit before any '.', no leading zero in the integer part other than a lone "0", at most two fraction digits, no trailing zero after a '.', and the text ends in a digit. With `FormatHundredthsRoundTrip` this fixes the text of every value uniquely. |
| `DecimalFormat.FormatHundredthsRoundTrip` | Auto/car_app_library/showcase/src/main/java/com/google/android/libraries/car/app/samples/showcase/navigation/NavigationNotificationService.java:186 | Reading the formatted text of h hundredths gives back exactly h. |
| `DecimalFormat.FormatHundredthsInjective` | Auto/car_app_library/showcase/src/main/java/com/google/android/libraries/car/app/samples/showcase/navigation/NavigationNotificationService.java:186 | Two different values never print the same text. |
| `DecimalFormat.NatToStringParseNat` | Auto/car_app_library/showcase/src/main/java/com/google/android/libraries/car/app/samples/showcase/navigation/NavigationNotificationService.java:186 | A digit string with no leading zero, other than "0" itself, is the numeral of its own value. So the integer digits of `"#.##"` are the only shape-correct ones. |
| `DecimalFormat.CanonicalUnique` | Auto/car_app_library/showcase/src/main/java/com/google/android/libraries/car/app/samples/showcase/navigation/NavigationNotificationService.java:186 | A text with the `"#.##"` shape that reads back as h hundredths is exactly the text printed for h. So the shape and the value determine the string. |
| `DecimalFormat.Format` | Auto/car_app_library/showcase/src/main/java/com/google/android/libraries/car/app/samples/showcase/navigation/NavigationNotificationService.java:186-187 | The formatted text of num/den reads back as num/den truncated toward zero to two decimals. Its `"#.##"` shape is stated by `FormatCanonical`. |
| `DecimalFormat.FormatCanonical` | Auto/car_app_library/showcase/src/main/java/com/google/android/libraries/car/app/samples/showcase/navigation/NavigationNotificationService.java:186-187 | The text printed for num/den has the `"#.##"` shape. It is the only text of that shape that reads back as num/den truncated toward zero to two decimals. |
| `Directions.RepeatingCount` | Auto/car_app_library/showcase/src/main/java/com/google/android/libraries/car/app/samples/showcase/navigation/NavigationNotificationService.java:188 | `notificationCount % 35` with Java's remainder: the result lies in (-35, 35), has the sign of the count, differs from the count by a multiple of 35, and equals the mathematical n mod 35 for n >= 0. |
| `Directions.Branch` | Auto/car_app_library/showcase/src/main/java/com/google/android/libraries/car/app/samples/showcase/navigation/NavigationNotificationService.java:189-215 | The if/else chain over the repeating count r. For r >= 0: the title, icon and unit of the band r lies in, with `onlyAlertOnce` false exactly at the band's first index. For r < 0 (a wrapped count): the else branch, "Gas Station" with the gas icon and a fresh alert. |
| `Directions.Label` | Auto/car_app_library/showcase/src/main/java/com/google/android/libraries/car/app/samples/showcase/navigation/NavigationNotificationService.java:191-212 | The label is the `"#.##"` text of the distance followed by the unit ("km" or "m", lines 191, 199, 207 and 212). The part before the unit reads back as the truncated hundredths of the distance. `LabelCanonical` states that this part has the `"#.##"` shape, which fixes the text. |
| `Directions.LabelCanonical` | Auto/car_app_library/showcase/src/main/java/com/google/android/libraries/car/app/samples/showcase/navigation/NavigationNotificationService.java:191-212 | The number part of every label has the `"#.##"` shape. The label is the only text of that shape, followed by the unit, that reads back as the truncated distance. |
| `Directions.GetDirectionInfo` | Auto/car_app_library/showcase/src/main/java/com/google/android/libraries/car/app/samples/showcase/navigation/NavigationNotificationService.java:185-216 | For n >= 0 the title, icon and alert-once flag are those of the band that n % 35 lies in. Its label is stated by `DirectionInfoInBand`, and negative counts by `NegativeCount`. |
| `Directions.BandsPartition` | Auto/car_app_library/showcase/src/main/java/com/google/android/libraries/car/app/samples/showcase/navigation/NavigationNotificationService.java:188-215 | Every r in [0, 35) lies in one band, and in exactly one. |
| `Directions.BandOf` | Auto/car_app_library/showcase/src/main/java/com/google/android/libraries/car/app/samples/showcase/navigation/NavigationNotificationService.java:189-215 | Names the band that a repeating count in [0, 35) lies in. |
| `Directions.TitlesDistinct` | Auto/car_app_library/showcase/src/main/java/com/google/android/libraries/car/app/samples/showcase/navigation/NavigationNotificationService.java:193-214 | The four titles are pairwise different. |
| `Directions.BranchDistance` | Auto/car_app_library/showcase/src/main/java/com/google/android/libraries/car/app/samples/showcase/navigation/NavigationNotificationService.java:190-212 | In band b, the distance at r is Remaining(r, b) = (High(b) - r) * Step(b) hundredths of the band's unit. Truncating it to two decimals is exact. |
| `Directions.LabelInBand` | Auto/car_app_library/showcase/src/main/java/com/google/android/libraries/car/app/samples/showcase/navigation/NavigationNotificationService.java:190-212 | In band b the label at r is the `"#.##"` text of Remaining(r, b) = (High(b) - r) * Step(b) hundredths, followed by the band's unit. |
| `Directions.DirectionInfoInBand` | Auto/car_app_library/showcase/src/main/java/com/google/android/libraries/car/app/samples/showcase/navigation/NavigationNotificationService.java:185-215 | For n >= 0 in band b: the title, icon and alert-once flag are the band's, and the label is the `"#.##"` text of the count-down distance followed by "km" or "m". |
| `Directions.LabelOfCount` | Auto/car_app_library/showcase/src/main/java/com/google/android/libraries/car/app/samples/showcase/navigation/NavigationNotificationService.java:185-215 | For n >= 0 in band b, the label is the `"#.##"` text of the count-down distance followed by "km" or "m". |
| `Directions.TitleAndAlertInBand` | Auto/car_app_library/showcase/src/main/java/com/google/android/libraries/car/app/samples/showcase/navigation/NavigationNotificationService.java:189-214 | For n >= 0 in band b, the title, icon and alert-once flag are the band's. The flag is false only at the band's first index. |
| `Directions.TitleIdentifiesBand` | Auto/car_app_library/showcase/src/main/java/com/google/android/libraries/car/app/samples/showcase/navigation/NavigationNotificationService.java:188-215 | For n >= 0 the title is Title(b), and the icon is IconOf(b), if and only if n % 35 lies in band b. |
| `Directions.AlertAtBandStart` | Auto/car_app_library/showcase/src/main/java/com/google/android/libraries/car/app/samples/showcase/navigation/NavigationNotificationService.java:189-214 | For n >= 0, `onlyAlertOnce` is false exactly when n % 35 is 0, 10, 20 or 25. |
| `Directions.AlertOnDirectionChange` | Auto/car_app_library/showcase/src/main/java/com/google/android/libraries/car/app/samples/showcase/navigation/NavigationNotificationService.java:182-183 | For n >= 1 a fresh alert (`onlyAlertOnce` false) comes exactly when the title differs from that of count n - 1. |
| `Directions.Periodic` | Auto/car_app_library/showcase/src/main/java/com/google/android/libraries/car/app/samples/showcase/navigation/NavigationNotificationService.java:188 | For n >= 0, `getDirectionInfo(n + 35) == getDirectionInfo(n)`. |
| `Directions.DistanceCountsDown` | Auto/car_app_library/showcase/src/main/java/com/google/android/libraries/car/app/samples/showcase/navigation/NavigationNotificationService.java:190-212 | Within a band the shown distance strictly falls as r rises. |
| `Directions.DistanceRange` | Auto/car_app_library/showcase/src/main/java/com/google/android/libraries/car/app/samples/showcase/navigation/NavigationNotificationService.java:190-212 | Every distance is positive and lies between the band's last and first value (1 km to 0.1 km, 5 km to 0.5 km, 200 m to 40 m, 1 km to 0.1 km). The first value comes exactly at the band's first index, the last exactly at its last index. |
| `Directions.NegativeCount` | Auto/car_app_library/showcase/src/main/java/com/google/android/libraries/car/app/samples/showcase/navigation/NavigationNotificationService.java:188-215 | A negative count (the int has wrapped) behaves as count 0 when it is a multiple of 35. Otherwise it shows "Gas Station" with the gas icon, a fresh alert every time and a distance in km of 3.6 to 6.9. |
| `Directions.ExamplesStraight` | Auto/car_app_library/showcase/src/main/java/com/google/android/libraries/car/app/samples/showcase/navigation/NavigationNotificationService.java:189-196 | Count 0 gives ("Go Straight", "1km", straight arrow, false). Count 9 gives ("Go Straight", "0.1km", straight arrow, true). |
| `Directions.ExamplesRightTurn` | Auto/car_app_library/showcase/src/main/java/com/google/android/libraries/car/app/samples/showcase/navigation/NavigationNotificationService.java:197-204 | Count 10 gives ("Turn Right", "5km", right-turn arrow, false). Count 11 gives ("Turn Right", "4.5km", right-turn arrow, true). |
| `Directions.ExamplesTake520` | Auto/car_app_library/showcase/src/main/java/com/google/android/libraries/car/app/samples/showcase/navigation/NavigationNotificationService.java:205-209 | Count 20 gives ("Take 520", "200m", 520 icon, false). Count 24 gives ("Take 520", "40m", 520 icon, true). |
| `Directions.ExamplesGasStation` | Auto/car_app_library/showcase/src/main/java/com/google/android/libraries/car/app/samples/showcase/navigation/NavigationNotificationService.java:210-215 | Count 25 gives ("Gas Station", "1km", gas icon, false). Count 34 gives ("Gas Station", "0.1km", gas icon, true). |
| `NavigationService.Wrap32` | Auto/car_app_library/showcase/src/main/java/com/google/android/libraries/car/app/samples/showcase/navigation/NavigationNotificationService.java:61 | A Java int lies in [-2^31, 2^31) and is congruent to the mathematical integer modulo 2^32. |
| `NavigationService.Increment` | Auto/car_app_library/showcase/src/main/java/com/google/android/libraries/car/app/samples/showcase/navigation/NavigationNotificationService.java:170 | `mNotificationCount++` on a Java int gives a Java int congruent to the count plus one modulo 2^32. `IncrementWraps` ties it to `Wrap32`. |
| `NavigationService.IncrementWraps` | Auto/car_app_library/showcase/src/main/java/com/google/android/libraries/car/app/samples/showcase/navigation/NavigationNotificationService.java:170 | `mNotificationCount++` from the int that i wraps to gives the int that i + 1 wraps to. |
| `NavigationService.NotifiedMembers` | Auto/car_app_library/showcase/src/main/java/com/google/android/libraries/car/app/samples/showcase/navigation/NavigationNotificationService.java:168 | The counts of the notify posts in a log are exactly the counts of the `NotificationManagerCompat.notify` posts it holds. |
| `NavigationService.RemoveMessages` | Auto/car_app_library/showcase/src/main/java/com/google/android/libraries/car/app/samples/showcase/navigation/NavigationNotificationService.java:84 | `removeMessages(what)` leaves no message with that code, keeps every other message and as many of each, and removes exactly as many messages as had the code. |
| `NavigationService.RemoveMessagesAppend` | Auto/car_app_library/showcase/src/main/java/com/google/android/libraries/car/app/samples/showcase/navigation/NavigationNotificationService.java:84 | Removal works message by message and keeps the order of the remaining messages. |
| `NavigationService.NotificationService.Valid` | Auto/car_app_library/showcase/src/main/java/com/google/android/libraries/car/app/samples/showcase/navigation/NavigationNotificationService.java:55-61 | The invariant: the counter is the number of notifications fired so far, wrapped to a Java int, and the i-th notify post was built from count i. It implies the counter is a Java int, and equals the number of notify posts while that number fits in one. |
| `NavigationService.NotificationService.constructor` | Auto/car_app_library/showcase/src/main/java/com/google/android/libraries/car/app/samples/showcase/navigation/NavigationNotificationService.java:61-67 | The counter starts at 0, nothing is pending and nothing has been posted. |
| `NavigationService.NotificationService.OnStartCommand` | Auto/car_app_library/showcase/src/main/java/com/google/android/libraries/car/app/samples/showcase/navigation/NavigationNotificationService.java:69-80 | Posts the current count as the foreground notification, does not change the counter, queues one `MSG_SEND_NOTIFICATION` and returns `START_NOT_STICKY`. It keeps the invariant. |
| `NavigationService.NotificationService.HandleMessage` | Auto/car_app_library/showcase/src/main/java/com/google/android/libraries/car/app/samples/showcase/navigation/NavigationNotificationService.java:163-176 | With `MSG_SEND_NOTIFICATION`: posts the current count, increments the counter by one (as a Java int), queues exactly one new message and returns true. With any other code: returns false and changes nothing. It keeps the invariant. |
| `NavigationService.NotificationService.OnDestroy` | Auto/car_app_library/showcase/src/main/java/com/google/android/libraries/car/app/samples/showcase/navigation/NavigationNotificationService.java:82-85 | Afterwards no `MSG_SEND_NOTIFICATION` is pending. The counter and the posts are untouched. |
| `NavigationService.NotificationService.DeliverNext` | Auto/car_app_library/showcase/src/main/java/com/google/android/libraries/car/app/samples/showcase/navigation/NavigationNotificationService.java:67 | The Handler hands the oldest pending message to the callback and gives it the behaviour above. The number of pending ticks never changes. With no tick pending, neither the counter nor the posts change. |
| `NavigationService.StartTwoTicksDestroy` | Auto/car_app_library/showcase/src/main/java/com/google/android/libraries/car/app/samples/showcase/navigation/NavigationNotificationService.java:69-85 | Start, two ticks, destroy gives the posts [foreground 0, notify 0, notify 1]. The first tick shows count 0's content again, the counter ends at 2, and nothing stays pending. |

## Left out

- Building the Android notification is not modelled: the builder calls, the ongoing flag and
  navigation category, and the `CarAppExtender` (lines 112-153). The model records only the
  count each notification was built from, and `Shown` maps that count to its content.
- Notification channel creation and the SDK version checks (lines 100-109, 155-160) are
  platform capability plumbing and are not modelled.
- The deep-link `PendingIntent` (lines 140-150) and `onBind` (lines 88-91) are OS glue that
  returns nothing the model could use, so they are left out.
- The one-second delay and Looper timing (lines 53, 76-77, 171-172) are not modelled. There is
  no clock: a message sent during a delivery goes to the back of the queue, so ordering by
  delivery time is not captured.
- The unused parameters of `onStartCommand` (`intent`, `flags`, `startId`) are omitted.
- `Handler.dispatchMessage` falls back to `Handler.handleMessage` when the callback returns
  false. That method is a no-op in the base class, which the model reflects by changing
  nothing.
- Double arithmetic and the internals of `DecimalFormat` are not modelled. Each product is
  an exact number of tenths, and the labels are those of the exact values. `DecimalFormat`
  truncates the shortest decimal form of a double (the digits `Double.toString` gives), not
  its binary value. So 43 * 0.1, a double just below 4.3, still prints "4.3". For every
  product in this table (k * 0.1 for k in 1..10 and 36..69, k * 0.5, and the int products),
  the shortest form is the intended decimal or begins with it, so the exact model gives the
  labels the code prints. Only a double whose shortest form fell below its decimal value
  would print a smaller label, and none occurs here.
- The formatter assumes a locale with ASCII digits and '.' as separator; `DecimalFormat(String)` takes both from the default locale.
- The icon resource ids are four opaque, distinct constructors of `Icon`.
