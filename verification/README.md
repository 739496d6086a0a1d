# CHO-cell bioreactor simulator: kinetics, stepper and dosing driver

This project models the simulation engine of an interactive fed-batch
bioreactor dashboard for CHO cells:

- **Kinetics** (`kinetics.dfy`): the seven specific rates.
  - `mu_func` gives growth and `k_D` gives death.
  - `GUR` and `GlnUR` give glucose and glutamine uptake.
  - `LPR` and `APR` give lactate and ammonium production.
  - `PPR` gives product formation.
  - `Default` holds the module-level parameter set.
  - The rate laws are written with three factors: Monod saturation, an offset saturation and non-competitive inhibition.
- **Stepper** (`stepper.dfy`): `init_sim` and the one-step generator `gen`.
  - `gen` is an explicit-Euler mass balance of one step `dt`.
  - It is exhausted once the time of the previous record reaches `t_max`.
  - Glucose and glutamine are floored at zero. Lactate, ammonium and product are not.
  - The new record stores the flows that were applied. It also stores the rates re-evaluated on its own concentrations.
- **Dosing** (`dosing.dfy`): the continuous dosing-window policy of the driver.
  - Each feed stream runs at its configured rate exactly when the time of the last record lies in that stream's closed window.
  - The buffer flow is 0.
  - The feed concentrations are fixed at 2500 mM glucose and 100 mM glutamine.
- **Session** (`session.dfy`): the history that the driver keeps.
  - It starts as one `init_sim` record.
  - Each refresh of a running session appends one record.
  - When the stepper is exhausted, no record is appended and the run flag is cleared.
  - `Simulate` composes a whole run under a fixed plan. It proves that the run starts with the `init_sim` record and that each later record is the stepper's output from the one before. It also proves that the run has 251 records at hours 0 to 250, that every record is physical, and that the volume never decreases.
- **Outcomes** (`outcomes.dfy`): the wrappers the other modules return.
  - `Option` models the one-shot generator.
  - `Checked` models a Python division by an exact zero, which the source does not catch.

All quantities are `real`; the source's doubles are not modelled.

## Model

| member | source | states |
|---|---|---|
| Kinetics.GrowthRate | model/run.py:1-13 | growth is zero without glucose |
| Kinetics.GrowthRateRange | model/run.py:6-11 | with positive constants and non-negative concentrations each of the four factors lies in [0, 1], so 0 <= mu <= mu_max; mu > 0 exactly when glucose is present |
| Kinetics.DefaultInitialGrowth | model/run.py:80-97 | under the default constants the initial culture of the dashboard (35 mM glucose, 4 mM glutamine) grows at 119/3000 per hour |
| Kinetics.DefaultValid | model/run.py:80-97 | the default constants are positive, with alpha = 0 allowed |
| Kinetics.DeathRate | model/run.py:16-25 | the death rate is exactly 0.1 whenever glucose is not positive |
| Kinetics.DeathRateSaturating | model/run.py:20-25 | with glucose present the death rate is 0.05 times the ammonium saturation plus 0.05 times the lactate saturation; it lies in [0, 0.1) for non-negative toxins and is positive exactly when either toxin is present |
| Kinetics.GlucoseUptake | model/run.py:28-35 | glucose uptake is zero while glucose is not positive |
| Kinetics.GlucoseUptakeYield | model/run.py:32-34 | with glucose present, growth is recovered as Yx_Glc times (q_Glc - m_Glc); a growing culture takes up at least its maintenance demand |
| Kinetics.GlutamineUptake | model/run.py:38-45 | glutamine uptake is zero while glutamine is not positive |
| Kinetics.GlutamineUptakeSaturation | model/run.py:42-44 | with glutamine present, uptake is qmax_Gln times the saturation Gln/(Kq_Gln + Gln) |
| Kinetics.GlutamineUptakeRange | model/run.py:42-44 | with glutamine present, uptake lies strictly between 0 and qmax_Gln and is exactly half of qmax_Gln at Gln = Kq_Gln |
| Kinetics.GlutamineUptakeMonotone | model/run.py:38-45 | more glutamine never means less uptake, including the step from no glutamine to some |
| Kinetics.LactateProduction | model/run.py:48-55 | lactate production is zero at or below 0.5 mM glutamine; above that it is the yield Ylac_Glc times glucose uptake; it is zero exactly when glutamine is at or below the shift or glucose uptake is zero |
| Kinetics.AmmoniumProduction | model/run.py:58-65 | ammonium production is exactly 1e-8 at or below 0.5 mM glutamine; above that it is the yield Yamm_Gln times glutamine uptake; it is positive in both cases |
| Kinetics.ProductFormation | model/run.py:68-79 | without ammonium, production is the uninhibited Luedeking-Piret rate alpha*mu + beta |
| Kinetics.ProductInhibited | model/run.py:72-77 | for non-negative growth, production lies between 0 and its uninhibited value, and more ammonium never means faster production |
| Kinetics.AmmoniumNeverZero | model/run.py:58-65 | with valid constants the stored ammonium rate is never zero |
| Kinetics.AllRatesInRange | model/run.py:125-131 | all seven rates of a non-negative medium lie in their physical ranges |
| Kinetics.AllRates | model/run.py:125-131 | the seven rates are evaluated in the source's order: glucose uptake uses the growth rate just computed, lactate production uses that glucose uptake, ammonium production uses the glutamine uptake, and product formation uses the growth rate |
| Kinetics.NonnegativeMediumDefined | model/run.py:1-79 | a non-negative medium under positive constants meets no zero denominator |
| Stepper.Init | model/run.py:100-133 | the first record is at t = 0 with the given culture and all flows 0, and it stores the rates of that culture; it fails exactly when a rate would divide by zero; it is physical exactly when the medium is non-negative |
| Stepper.ClampAtZero | model/run.py:152-161 | a negative glucose or glutamine concentration becomes 0, and a non-negative one is kept; the result is never negative and never below its input |
| Stepper.Balance | model/run.py:145-172 | the balanced glucose and glutamine are non-negative, and the volume grows by dt times the total inflow |
| Stepper.Step | model/run.py:136-198 | no record is produced exactly when t >= t_max; otherwise the new record is at t + dt and holds the balanced culture, the applied flows and the rates of its own culture; a division error happens exactly when the volume is zero or the new rates divide by zero |
| Stepper.ZeroFlowStep | model/run.py:145-172 | with every flow off the volume is unchanged and each species changes only by its cellular term |
| Stepper.VolumeMonotone | model/run.py:172 | with non-negative flows the volume never decreases, and it is unchanged exactly when every flow is zero |
| Stepper.GrowthKeepsNonnegative | model/run.py:145 | cells stay non-negative when one step's death plus dilution is at most the whole culture |
| Stepper.DilutionKeepsNonnegative | model/run.py:163-171 | a product species stays non-negative when it is produced at a non-negative rate and one step dilutes at most the whole reactor |
| Stepper.BalanceKeepsNonnegative | model/run.py:145-172 | a non-negative culture with in-range rates stays non-negative after one step with non-negative flows and a small enough step |
| Stepper.StepPreservesPhysical | model/run.py:136-198 | from a physical record, with non-negative flows and a small enough step, gen never divides by zero and yields a physical record |
| Stepper.MetabolitesNotClamped | model/run.py:147-171 | lactate is not floored: a concrete step takes it to -10 mM while glucose, which is floored, rises to 5000 mM |
| Dosing.WindowFlows | app.py:75-85 | each feed stream runs at its configured rate when the last time lies in its closed window and is 0 otherwise; the buffer flow is 0 |
| Dosing.StreamOnExactlyInWindow | app.py:75-85 | with positive rates a stream is on if and only if the time lies in its window |
| Dosing.StreamsIndependent | app.py:75-85 | each stream's flow depends only on its own rate and window |
| Dosing.ClosedWindowExample | app.py:76-79 | an example: for the window [10, 20] with a 2 L/h rate, glucose flows at 10, 15 and 20 h, including both ends, and not at 9 or 21 h |
| Session.Start | app.py:28-36 | the history starts as exactly one init_sim record at t = 0 with the operator's glucose and glutamine; with non-negative values it is defined and physical |
| Session.Advance | app.py:72-92 | the session completes exactly at the horizon; it crashes exactly when, below the horizon, the volume is zero or the stepped culture's rates divide by zero; otherwise it appends one record after the unchanged history, at the next hour; that record uses the flows chosen from the previous record's time and the fixed feed, and stores its own rates |
| Session.Refresh | app.py:72-95 | a paused driver does nothing; at the horizon the run flag is cleared and nothing is appended; below the horizon a running driver either stays running with exactly one record appended, namely the one `Session.Advance` appends, or fails with `DivisionByZero` exactly when `Session.Advance` crashes; the history is unchanged exactly when the run flag ends up cleared |
| Session.AdvanceKeepsTimeline | app.py:87-95 | on a history whose record i is at hour i, the session completes exactly when it holds 251 records, and an appended record keeps the timeline |
| Session.SafeRefresh | app.py:72-95 | under a safe plan a refresh never crashes, completes exactly at 251 records, and otherwise appends one physical record at the next hour, which is the culture the stepper balances from the previous record under the flows it stores |
| Session.Simulate | app.py:28-95 | a whole run under a fixed safe plan starts with the `init_sim` record of `Session.Start`, makes every later record by balancing its predecessor with the fixed feed and the stored flows, and yields 251 records at hours 0 to 250, all physical, with the volume non-decreasing and each record's flows chosen from its predecessor's time |

## Left out

- Streamlit plumbing is not modelled: widgets, tabs, charts, metrics, `sleep`, the script rerun and the completion toast. The history is a sequence of records instead of a pandas frame.
- The `gui/` files are not modelled. They hold display and input code only. Their rendered equations differ from the code, and the model follows the code. The glutamine uptake denominator is `Kq_Gln + Gln`, and the lactate death term is `1 - Kl2_Lac/(Kl2_Lac + Lac)`.
- The sidebar's input bounds are enforced by the widgets, which keep each feed flow in [0, 5] L/h. `Session.SafePlan` assumes a looser bound instead: non-negative rates that sum to at most 900 L/h. Every plan the sidebar admits meets it, and it is what the physical-run results need.
- IEEE double rounding and overflow are not modelled. All arithmetic is exact over the reals.
- Stepper.Init: the `params` argument of `init_sim` is ignored by the source, which always uses the module-level `param`. The model therefore has no such argument, and neither does `Stepper.Step`.
- Bolus and bang-bang feed policies are not modelled. They appear in no source file.
- Session.Refresh: the run flag is modelled as staying off once the stepper is exhausted. In the program the script reruns after clearing it, and the sidebar then re-reads the still-ticked checkbox into the flag. While the box stays ticked, every later rerun calls the exhausted stepper again and shows the completion toast again, without changing the history. The model does not repeat these no-op refreshes.
- Session.Refresh: after a division error the model reports `DivisionByZero` and stops. What the dashboard does after an uncaught error is not modelled.
- Session.Simulate: the plan is fixed for the whole run. An operator can change the sliders between refreshes; `Session.Refresh` and `Session.Advance` take the plan per call and so cover that case one step at a time.
- Kinetics.GrowthRate, Kinetics.DeathRate, Kinetics.GlucoseUptake, Kinetics.GlutamineUptake and Kinetics.ProductFormation: where a denominator is exactly zero, these functions carry a precondition. The stepper and `Stepper.Init` check those denominators first and return `DivisionByZero` in their place, as the source would raise.
