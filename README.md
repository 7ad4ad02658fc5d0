# Fourier visualizer: structural model

The Fourier visualizer loads an SVG path, approximates it with a truncated
complex Fourier series and animates the series as a chain of rotating vectors
(epicycles). This project models the structure under that arithmetic and
proves properties about it:

- **The coefficient extractor** (`compute_fourier_series`). For `depth`, it takes
  `N = depth // 2` and builds the term list `{k, c}` in the order
  `1, -1, 2, -2, …, N, -N`. Each coefficient comes from its own quadrature for
  its signed frequency. The DC term `k = 0` is never built. If the path function
  raises during any quadrature, the whole call fails with that error and no
  partial list is returned.
- **The series evaluator** (`fourier_series_function`). It is a left fold that
  adds one rotating vector per term onto a zero accumulator.
- **The widget's ordering of terms.** `draw_rotating_vectors` drops `k = 0`
  terms and stably sorts the rest by `|k|`. `get_current_tip_position` stably
  sorts all terms by `|k|` and sums their scaled vectors, starting from the
  drawing centre.
- **The widget's state.** `update_trail` keeps a bounded, newest-first trail
  of tip positions. `start_animation` and `stop_animation` switch the animation
  on and off, and `update_animation` moves `current_time` only while the
  animation runs.

The numbers stay abstract:

- The quadrature `∫ f(t)·e^(−2πi·j·t) dt` over [0, 1] is a parameter
  `integral: int -> Result<C, E>`. It gives the coefficient for signed
  frequency `j`, or the error that `f` raised.
- The rotating vector `c·e^(2πi·k·t)`, complex addition and complex zero are the
  three fields of `FourierTransform.Algebra`.

What is proved is exact:

- how many entries there are, and in what order;
- how the `k`/`−k` pairs are arranged, and that no frequency repeats;
- which integral feeds which entry;
- how the fold behaves when a term is appended;
- that the sum does not depend on term order when addition is a commutative
  monoid;
- that sorting by `|k|` changes nothing on a list produced by
  `compute_fourier_series`;
- each trail and animation update.

`fourier_transform.dfy` holds module `FourierTransform`: terms, frequencies,
the extractor and the evaluator. `gl_widget.dfy` holds module `GlWidget`: the
ordering functions, the tip fold, the trail function and the class
`GLWidget`.

A negative depth is not rejected. Python's `//` rounds down, so `N ≤ 0` and the
result is empty. Dafny's `/` by the positive constant 2 rounds the same way.

## Model

| member | source | states |
|---|---|---|
| FourierTransform.Pairs | fourier_visualizer/core/fourier_transform.py:17-21 | the loop over `range(1, n + 1)` emits `2n` frequencies, and none when `n ≤ 0` |
| FourierTransform.Frequencies | fourier_visualizer/core/fourier_transform.py:13-23 | the frequency list for `depth` has exactly `2 * (depth // 2)` entries; every `depth < 2`, negative ones included, gives the empty list |
| FourierTransform.PairsAt | fourier_visualizer/core/fourier_transform.py:17-21 | entry `i` has frequency `i/2 + 1` at even `i` and `−(i/2 + 1)` at odd `i` |
| FourierTransform.PairsPrefix | fourier_visualizer/core/fourier_transform.py:17-21 | the list built for a smaller loop bound is a prefix of the list for a larger one, because the loop only appends |
| FourierTransform.FrequencyPositions | fourier_visualizer/core/fourier_transform.py:17-21 | for `1 ≤ k ≤ N`, entry `2(k−1)` has frequency `k` and entry `2(k−1)+1` has frequency `−k` |
| FourierTransform.FrequencyMembership | fourier_visualizer/core/fourier_transform.py:16-21 | `j` occurs iff `1 ≤ abs(j) ≤ N`; 0 never occurs; `j` occurs iff `−j` occurs |
| FourierTransform.FrequenciesDistinct | fourier_visualizer/core/fourier_transform.py:17-21 | two different positions never hold the same frequency |
| FourierTransform.FrequenciesAbsSorted | fourier_visualizer/core/fourier_transform.py:17-21 | `abs(k)` is non-decreasing along the list |
| FourierTransform.ComputeFourierSeries | fourier_visualizer/core/fourier_transform.py:11-23 | success iff every integral called succeeds; then the frequencies are exactly `Frequencies(depth)`, and each entry's coefficient is the integral for that entry's own signed frequency (so `−k` gets its own integral, not one derived from `k`); otherwise the error is that of the first failing integral in evaluation order `k`, `−k`, and no list is returned |
| FourierTransform.FourierSeriesFunction | fourier_visualizer/core/fourier_transform.py:26-32 | the loop returns the left fold of the contributions from the zero value, and the zero value for an empty list |
| FourierTransform.FoldSnoc | fourier_visualizer/core/fourier_transform.py:27-32 | folding `terms + [x]` adds `x`'s contribution to the fold of `terms` |
| FourierTransform.SeriesSnoc | fourier_visualizer/core/fourier_transform.py:27-32 | evaluating `terms + [x]` equals evaluating `terms` plus `x`'s contribution |
| FourierTransform.FoldConcat | fourier_visualizer/core/fourier_transform.py:28-31 | folding `p + q` folds `p`, then continues with `q` from that accumulator |
| FourierTransform.FoldShift | fourier_visualizer/core/fourier_transform.py:27-32 | when addition is a commutative monoid, folding from `acc` gives `acc` plus the series value |
| FourierTransform.SeriesConcat | fourier_visualizer/core/fourier_transform.py:27-32 | when addition is a commutative monoid, the series of `p + q` is the sum of the two series |
| FourierTransform.SeriesExtract | fourier_visualizer/core/fourier_transform.py:27-32 | when addition is a commutative monoid, the term at any position can be summed first |
| FourierTransform.SeriesPermutation | fourier_visualizer/core/fourier_transform.py:26-32 | when addition is a commutative monoid, two lists holding the same terms (as multisets) have the same series value |
| GlWidget.Insert | fourier_visualizer/widgets/gl_widget.py:244 | inserting a term adds exactly that term, and keeps a list that is sorted by `abs(k)` sorted |
| GlWidget.SortByAbsK | fourier_visualizer/widgets/gl_widget.py:244 | the sort by key `abs(k)` returns a permutation of its input, of the same length, with `abs(k)` non-decreasing |
| GlWidget.InsertWithAbs | fourier_visualizer/widgets/gl_widget.py:244 | inserting into a sorted list puts the new term before every existing term with the same `abs(k)` |
| GlWidget.SortStable | fourier_visualizer/widgets/gl_widget.py:244 | the sort is stable: for every `v`, the terms with `abs(k) = v` come out in their input order |
| GlWidget.SortedIsUnchanged | fourier_visualizer/widgets/gl_widget.py:244 | a list already sorted by `abs(k)` is returned unchanged |
| GlWidget.NonZeroTerms | fourier_visualizer/widgets/gl_widget.py:278 | the filter keeps no `k = 0` term |
| GlWidget.NonZeroKeepsCount | fourier_visualizer/widgets/gl_widget.py:278 | the filter never adds a term, and every occurrence of a term with `k ≠ 0` survives it |
| GlWidget.NonZeroSingleton | fourier_visualizer/widgets/gl_widget.py:278 | a single term is kept exactly when its `k ≠ 0` |
| GlWidget.NonZeroConcat | fourier_visualizer/widgets/gl_widget.py:278 | filtering `p + q` gives the filtered `p` followed by the filtered `q`; with the singleton case, this pins the filter down to the list comprehension, order included |
| GlWidget.NonZeroKeepsOrder | fourier_visualizer/widgets/gl_widget.py:278 | two kept terms at positions `i < j` appear in the filtered list in that same order |
| GlWidget.NonZeroWithAbs | fourier_visualizer/widgets/gl_widget.py:278 | within each `abs(k)` class, the filter keeps the relative order of the terms it keeps, and it removes every term with `abs(k) = 0` |
| GlWidget.NonZeroUnchanged | fourier_visualizer/widgets/gl_widget.py:278 | a list with no `k = 0` term passes the filter unchanged |
| GlWidget.DrawOrder | fourier_visualizer/widgets/gl_widget.py:278-279 | the drawing order is sorted by `abs(k)` and is a permutation of the filtered terms |
| GlWidget.DrawOrderNonZero | fourier_visualizer/widgets/gl_widget.py:278-279 | no arrow is drawn for a term with `k = 0` |
| GlWidget.DrawOrderStable | fourier_visualizer/widgets/gl_widget.py:278-279 | for each `v ≠ 0`, the arrows with `abs(k) = v` are drawn in `term_data` order; none are drawn for `v = 0` |
| GlWidget.ComputedTermsAreInDrawOrder | fourier_visualizer/widgets/gl_widget.py:278-279 | on any list whose frequencies are those `compute_fourier_series` builds, both the sort and the filter-then-sort return the list unchanged |
| GlWidget.TipPosition | fourier_visualizer/widgets/gl_widget.py:240-257 | the tip is the fold from the drawing centre over all terms (none filtered out), stably sorted by `abs(k)`. It is the centre for an empty list, and on a list already sorted by `abs(k)` it sums the terms in list order |
| GlWidget.TipIsCenteredSeries | fourier_visualizer/widgets/gl_widget.py:240-257 | when addition is a commutative monoid, the tip (summed in `abs(k)` order from the drawing centre) equals the centre plus the series value in list order |
| GlWidget.TrailAfterUpdate | fourier_visualizer/widgets/gl_widget.py:106-113 | the new trail is a prefix of `[p] + old trail`, so only the oldest point can be dropped. It grows by exactly one when the old length is below the maximum and otherwise keeps its length, so it never shrinks. Its first point is `p` unless it is empty, which happens exactly when the old trail was empty and the maximum is `≤ 0`. A bound `len ≤ max` with `max ≥ 0` is preserved |
| GlWidget.GLWidget.UpdateTrail | fourier_visualizer/widgets/gl_widget.py:106-113 | the in-place insert-at-front and pop-last leave `trail_points` equal to `TrailAfterUpdate` of the old trail, and change no other field |
| GlWidget.GLWidget.constructor | fourier_visualizer/widgets/gl_widget.py:44-52 | a new widget has an empty trail, a maximum of 100 trail points, the animation off and `current_time` 0 |
| GlWidget.GLWidget.StartAnimation | fourier_visualizer/widgets/gl_widget.py:435-437 | afterwards `is_animating` is true |
| GlWidget.GLWidget.StopAnimation | fourier_visualizer/widgets/gl_widget.py:439-440 | afterwards `is_animating` is false |
| GlWidget.GLWidget.UpdateAnimation | fourier_visualizer/widgets/gl_widget.py:416-422 | `current_time` becomes the frame's phase while animating, and is unchanged otherwise (in particular after `stop_animation`) |

## Left out

- Numeric values. The quadrature `scipy.integrate.fixed_quad` (n = 1000 nodes), `np.exp` and complex doubles are left abstract. They are floating-point numerics in a foreign library, so `integral` and `Algebra` are uninterpreted parameters.
- SeriesPermutation, SeriesConcat, FoldShift, SeriesExtract and TipIsCenteredSeries: they assume addition is a commutative monoid. Floating-point addition is not associative. In the program, the tip and the series therefore agree only up to rounding.
- `get_current_tip_position`'s scaling (`scale_vector`) and `drawing_center` are not modelled separately. `TipPosition` takes the centre, the time and a contribution that already includes the scaling as parameters.
- `term_data` and `current_time` are passed to the ordering and tip functions as parameters. The model has no `term_data` field, and `set_term_data` with its `compute_scaling` call is float geometry that is not modelled.
- `start_animation`'s rebasing of `start_time` (a float division by `adjusted_speed`) is not modelled, and neither is `update_animation`'s computation of the phase from `time.time()` with `% 1.0` or its repaint request. The phase is a parameter of `UpdateAnimation`. `set_speed` and `adjust_speed_based_on_length` are float arithmetic.
- `max_trail_length` is written from the main window (`update_trail_length`, `reset_view`), which is not part of this model. `TrailAfterUpdate` is stated for every integer maximum, including one lowered below the current length.
- OpenGL drawing is not modelled: `paintGL`, `draw_trail` with its alpha ramp, `draw_fourier_drawing`, `draw_arrowhead`, `draw_dot`, the arrow width and size clamping, the FPS signal, `scale_and_translate` and `compute_scaling`. It is rendering and float geometry.
- `fourier_visualizer/main.py` (Qt window, dialogs, JSON settings) and `fourier_visualizer/utils/svg_loader.py` (a wrapper over `svgpathtools`) are not part of this model.
