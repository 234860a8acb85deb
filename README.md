# ha-package-vision: the detection filter and the start-up check, in Dafny

ha-package-vision connects a computer-vision inference pipeline to a Home
Assistant `input_boolean` called `package_detected`. All of the vision work
happens in an external library. The script itself does two small things, and
this project models and proves both.

- **The per-frame callback** (`package_inference`), module `Inference` in
  `inference.dfy`. It walks a frame's parallel `confidences` and `coordinates`
  arrays by index. It skips an entry whose confidence is below 0.5. It keeps
  an entry whose box's left edge `coord[0]` is strictly greater than 300,
  recording the pair (confidence, box). It counts the kept entries. Then it
  issues exactly one absolute command: `TurnOn` when the count is positive,
  `TurnOff` otherwise. The two HTTP POSTs are represented by this `Command`
  value.
  - `Keep` is the keep rule as a plain predicate.
  - `WellFormed` describes the frames the callback can read without faulting.
  - `Selected` says that entry `i` survives the filter.
  - `Kept` is the list of kept entries after the first `n` entries.
  - `SelectedSet` and `SelectedIndices` are the surviving indices, as a set
    and in visiting order. The method is proved against these functions.
  - `PackageInference` keeps no state and names nothing in a `modifies`
    clause. So the command for a frame depends on that frame alone.
- **The required-settings check** in `main`, module `Startup` in
  `startup.dfy`. The six settings VIDEO_FEED, API_KEY, WORKSPACE_NAME,
  WORKFLOW_ID, ACCESS_TOKEN and HOME_ASSISTANT_URL are checked in that order.
  Start-up stops with the name of the first one that is unset or empty. Only
  when all six are present is the inference pipeline initialised.
  - The process environment is a `map<string, string>` parameter.
  - `Lookup` models `os.environ.get`.
  - `Missing` is Python's `not value` applied to the value read.

Confidences and box coordinates are modelled as `real`. The code only
compares them against constants and does no arithmetic on them.

`FrameExamples` and `LaunchExamples` are client methods. They derive concrete
outcomes from the contracts alone. One of the frames is
`[(0.9, [310, 0, 400, 50]), (0.3, [320, 0, 400, 50])]`, which turns the
sensor on.

## Model

| member | source | states |
|---|---|---|
| `Inference.PackageInference` | ha_package_vision/main.py:65-98 | Builds the kept list in index order. It equals `Kept` over the whole frame. Its length, the number of packages, is the number of surviving indices and at most the number of entries. Every kept entry has confidence at least 0.5 and a left edge above 300. The single command is `TurnOn` exactly when some entry survives, and `TurnOff` otherwise. |
| `Inference.KeepBoundaries` | ha_package_vision/main.py:83-86 | The thresholds are exact. Confidence 0.5 passes, and a left edge of exactly 300 fails. No entry with confidence below 0.5 is ever kept. |
| `Inference.KeptCount` | ha_package_vision/main.py:79-88 | After `n` entries, the length of the kept list equals the number of indices `i < n` whose confidence is at least 0.5 and whose left edge is above 300. That number lies between 0 and `n`. |
| `Inference.KeptInIndexOrder` | ha_package_vision/main.py:79-87 | The kept list is the input filtered in original order. The surviving indices strictly increase, every one of them survives the filter, and every surviving index is among them. The j-th kept pair is (confidence, box) at the j-th surviving index. |
| `Inference.KeptSatisfiesKeep` | ha_package_vision/main.py:83-87 | Every element of the kept list has a non-empty box, a confidence of at least 0.5 and a left edge above 300. |
| `Inference.SomeKeptIffSomeSelected` | ha_package_vision/main.py:88-98 | The kept list is non-empty if and only if some index survives the filter. These are the two directions of the ON/OFF decision. |
| `Inference.MonotoneInConfidence` | ha_package_vision/main.py:83-84 | Raising confidences pointwise, with the boxes unchanged, never removes a surviving index. The count cannot drop, and a frame with a kept entry still has one, so a frame that turns the sensor on still does. |
| `Startup.RequiredVars` | ha_package_vision/main.py:122-129 | The table holds the six required names in the declared order, each paired with what reading that variable from the environment gives. An entry counts as missing exactly when its variable is unset or empty. |
| `Startup.ValidateRequired` | ha_package_vision/main.py:130-133 | Succeeds if and only if no entry is missing. On failure it reports the name of the first missing entry: every entry before it is present. |
| `Startup.Launch` | ha_package_vision/main.py:122-143 | The pipeline is initialised if and only if all six settings are set and non-empty. Otherwise start-up stops with a configuration error naming the first missing setting in the declared order, and no pipeline exists. When it is initialised, its API key, workspace, workflow and video reference are the environment's values, and its frame-rate cap is 0.2. |

## Left out

- `PackageInference` requires `WellFormed`. This means an entry that passes the confidence test has coordinates, and those coordinates have a first component. For any other frame the source raises an index error, which ends that frame's callback without sending a command. The model does not represent that fault.
- `PackageInference` uses `real`, which has no NaN. In the source, a NaN confidence is not skipped, because `NaN < 0.5` is false. A NaN left edge is never kept. The model does not capture these floating-point cases.
- `turn_on_package_detected` and `turn_off_package_detected` (main.py:34-57) are HTTP POSTs whose request errors are logged and swallowed. They are I/O, so the model represents them only by the `Command` value.
- The module-level environment reads and the `headers` dictionary (main.py:14-27) are ambient I/O. The environment is passed in as a map, and the headers are not modelled.
- `Launch` does not record ACCESS_TOKEN or HOME_ASSISTANT_URL in its outcome. The source checks them but uses them only for the HTTP calls, which are not modelled.
- The `on_prediction` callback wiring, `start`, `join`, `terminate` and the exit codes (main.py:136-157) belong to the external inference library, with its own threading and process control.
- Command-line parsing, the logging set-up and every logging call, including the info message at main.py:89, are output with no behavioural contract.
- The unused `video_frame` argument, and everything in the inference result apart from the two arrays the callback reads, are not modelled.
