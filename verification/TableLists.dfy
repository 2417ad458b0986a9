/** The table lists of the migrations 0001, 0002 and 0007-0022. */
module TableLists {
  import opened Sequences

  /** Tables created by 0001, in creation order. */
  const MULTIMODAL_TABLES := [
    "multimodal_assets", "multimodal_jobs", "multimodal_extractions", "multimodal_chunks",
    "multimodal_embeddings", "multimodal_diagrams", "multimodal_diagram_nodes",
    "multimodal_diagram_edges", "multimodal_screenshots", "multimodal_comparisons",
    "multimodal_videos", "multimodal_video_scenes", "multimodal_audio", "multimodal_transcripts",
    "multimodal_topics", "multimodal_decisions", "multimodal_memory", "multimodal_cost_ledger"
  ]

  /** The drop list of 0001: the creation order reversed. */
  const MULTIMODAL_DROPS := Reverse(MULTIMODAL_TABLES)

  /** Tables created by 0002, in creation order. */
  const WORKFLOW_TABLES := [
    "automation_workflows", "automation_workflow_versions", "automation_executions",
    "automation_checkpoints", "automation_approvals", "automation_compensations",
    "automation_triggers", "automation_webhooks", "automation_artifacts", "automation_costs",
    "automation_knowledge", "automation_marketplace", "automation_events"
  ]

  /** The drop list of 0002: the creation order reversed. */
  const WORKFLOW_DROPS := Reverse(WORKFLOW_TABLES)

  const RAG_TABLES := [
    "rag_sources", "rag_source_versions", "rag_chunks", "rag_ingestion_jobs", "rag_retrieval_logs",
    "rag_context_sets", "rag_citation_records", "rag_evaluation_runs", "rag_quality_metrics"
  ]

  const MARKETPLACE_TABLES := [
    "marketplace_publishers", "marketplace_packages", "marketplace_releases",
    "marketplace_permissions", "marketplace_dependencies", "marketplace_installations",
    "marketplace_reviews", "marketplace_reports", "marketplace_security_scans",
    "marketplace_package_events", "marketplace_package_usage"
  ]

  const AUTOMATION_TABLES := [
    "automation_tasks", "automation_plans", "automation_steps", "automation_patches",
    "automation_test_runs", "automation_reviews", "automation_approvals", "automation_deployments",
    "automation_budgets", "automation_checkpoints", "automation_workflow_templates"
  ]

  const DELIVERY_TABLES := [
    "delivery_pipelines", "delivery_pipeline_runs", "delivery_jobs", "delivery_runners",
    "delivery_artifacts", "delivery_environments", "delivery_deployments", "delivery_releases",
    "delivery_rollouts", "delivery_rollbacks", "delivery_preview_environments", "delivery_approvals"
  ]

  const SECURITY_TABLES := [
    "security_scans", "security_findings", "security_vulnerabilities", "security_sboms",
    "security_sbom_components", "security_assets", "security_policies",
    "security_policy_evaluations", "security_risk_acceptances", "security_fingerprints",
    "security_remediations", "security_provenance"
  ]

  const QUALITY_TABLES := [
    "quality_reviews", "quality_review_runs", "quality_findings", "quality_baselines",
    "quality_gates", "quality_gate_evaluations", "quality_review_feedback", "quality_test_analysis",
    "quality_review_versions", "quality_remediations", "quality_metrics_history",
    "quality_duplication_groups"
  ]

  const INCIDENT_TABLES := [
    "incident_incidents", "incident_events", "incident_alerts", "incident_hypotheses",
    "incident_actions", "incident_runbooks", "incident_postmortems", "incident_action_items",
    "incident_escalation_policies", "incident_alert_policies", "incident_reliability_metrics"
  ]

  const ANALYTICS_TABLES := [
    "analytics_events", "analytics_metric_definitions", "analytics_aggregates",
    "analytics_cost_records", "analytics_budgets", "analytics_alerts", "analytics_reports",
    "analytics_forecasts", "analytics_recommendations", "analytics_data_quality"
  ]

  const KG_TABLES := [
    "kg_entities", "kg_relationships", "kg_entity_aliases", "kg_snapshots", "kg_sync_jobs",
    "kg_quality_metrics", "kg_audit_log", "kg_authorization_policies"
  ]

  const IAM_TABLES := [
    "iam_workspaces", "iam_projects", "iam_teams", "iam_team_members", "iam_memberships",
    "iam_roles", "iam_resource_policies", "iam_service_accounts", "iam_api_keys", "iam_sessions",
    "iam_identity_providers", "iam_access_requests", "iam_break_glass_sessions",
    "iam_quota_policies", "iam_domain_verifications", "iam_audit_logs", "iam_access_reviews",
    "iam_privilege_analyses"
  ]

  const BILLING_TABLES := [
    "billing_plans", "billing_subscriptions", "billing_invoices", "billing_payments",
    "billing_usage_metering", "billing_credits", "billing_credit_transactions", "billing_coupons",
    "billing_coupon_redemptions", "billing_budgets", "billing_marketplace_records",
    "billing_dunning_records", "billing_reconciliation"
  ]

  const SUPPORT_TABLES := [
    "support_tickets", "support_messages", "support_assignments", "support_categories",
    "support_sla_policies", "support_sla_tracking", "support_escalations", "support_attachments",
    "support_knowledge_articles", "support_feedback", "support_automation_runs"
  ]

  const MARKETPLACE_ECOSYSTEM_TABLES := [
    "marketplace_categories", "marketplace_health", "marketplace_emergency_blocks",
    "marketplace_license_policies"
  ]

  const RELEASE_TABLES := [
    "release_records", "release_candidates", "release_approvals", "release_gates",
    "release_gate_results", "release_strategies", "release_steps", "release_verifications",
    "release_locks", "feature_flags", "feature_flag_versions", "feature_flag_rules",
    "feature_flag_evaluations"
  ]

  const DG_TABLES := [
    "governance_data_assets", "governance_classifications", "governance_lineage",
    "governance_retention_policies", "governance_data_requests", "governance_exports",
    "governance_processors", "governance_consents", "governance_policy_decisions",
    "governance_controls", "governance_control_evidence", "governance_legal_holds",
    "governance_exceptions", "governance_dlp_events"
  ]

  const AIML_TABLES := [
    "ai_model_registry", "ai_model_versions", "ai_provider_registry", "ai_prompt_registry",
    "ai_prompt_versions", "ai_evaluation_suites", "ai_evaluation_runs", "ai_guardrails",
    "ai_risk_records", "ai_model_cards", "ai_system_cards", "ai_approval_requests",
    "ai_monitoring_snapshots"
  ]

  /** Which of the sixteen migrations 0007-0022, counted from 0, can list table `t`: read off its name. */
  function Family(t: string): int {
    if |t| < 2 then -1
    else match t[0]
         case 'a' => if t[1] == 'u' then 2 else if t[1] == 'n' then 7 else 15
         case 'b' => 10
         case 'd' => 3
         case 'f' => 13
         case 'g' => 14
         case 'i' => if t[1] == 'n' then 6 else 9
         case 'k' => 8
         case 'm' => if Ecosystem(t) then 12 else 1
         case 'q' => 5
         case 'r' => if t[1] == 'a' then 0 else 13
         case 's' => if t[1] == 'e' then 4 else 11
         case _ => -1
  }

  predicate Ecosystem(t: string) {
    |t| > 12 && (t[12] == 'c' || t[12] == 'h' || t[12] == 'e' || t[12] == 'l')
  }

  lemma {:induction false} Family0007()
    ensures Distinct(RAG_TABLES) && forall t :: t in RAG_TABLES ==> Family(t) == 0
  {
  }

  lemma {:induction false} Family0008()
    ensures Distinct(MARKETPLACE_TABLES) && forall t :: t in MARKETPLACE_TABLES ==> Family(t) == 1
  {
  }

  lemma {:induction false} Family0009()
    ensures Distinct(AUTOMATION_TABLES) && forall t :: t in AUTOMATION_TABLES ==> Family(t) == 2
  {
  }

  lemma {:induction false} Family0010()
    ensures Distinct(DELIVERY_TABLES) && forall t :: t in DELIVERY_TABLES ==> Family(t) == 3
  {
  }

  lemma {:induction false} Family0011()
    ensures Distinct(SECURITY_TABLES) && forall t :: t in SECURITY_TABLES ==> Family(t) == 4
  {
  }

  lemma {:induction false} Family0012()
    ensures Distinct(QUALITY_TABLES) && forall t :: t in QUALITY_TABLES ==> Family(t) == 5
  {
  }

  lemma {:induction false} Family0013()
    ensures Distinct(INCIDENT_TABLES) && forall t :: t in INCIDENT_TABLES ==> Family(t) == 6
  {
  }

  lemma {:induction false} Family0014()
    ensures Distinct(ANALYTICS_TABLES) && forall t :: t in ANALYTICS_TABLES ==> Family(t) == 7
  {
  }

  lemma {:induction false} Family0015()
    ensures Distinct(KG_TABLES) && forall t :: t in KG_TABLES ==> Family(t) == 8
  {
  }

  lemma {:induction false} Family0016()
    ensures forall t :: t in IAM_TABLES ==> Family(t) == 9
  {
  }

  lemma {:induction false} Distinct0016()
    ensures Distinct(IAM_TABLES)
  {
    forall i, j | 0 <= i < j < |IAM_TABLES|
      ensures IAM_TABLES[i] != IAM_TABLES[j]
    {
      assert |IAM_TABLES[i]| != |IAM_TABLES[j]| || IAM_TABLES[i][5] != IAM_TABLES[j][5];
    }
  }

  lemma {:induction false} Family0017()
    ensures Distinct(BILLING_TABLES) && forall t :: t in BILLING_TABLES ==> Family(t) == 10
  {
  }

  lemma {:induction false} Family0018()
    ensures Distinct(SUPPORT_TABLES) && forall t :: t in SUPPORT_TABLES ==> Family(t) == 11
  {
  }

  lemma {:induction false} Family0019()
    ensures Distinct(MARKETPLACE_ECOSYSTEM_TABLES) && forall t :: t in MARKETPLACE_ECOSYSTEM_TABLES ==> Family(t) == 12
  {
  }

  lemma {:induction false} Family0020()
    ensures Distinct(RELEASE_TABLES) && forall t :: t in RELEASE_TABLES ==> Family(t) == 13
  {
  }

  lemma {:induction false} Family0021()
    ensures forall t :: t in DG_TABLES ==> Family(t) == 14
  {
  }

  lemma {:induction false} Distinct0021()
    ensures Distinct(DG_TABLES)
  {
  }

  lemma {:induction false} Family0022()
    ensures Distinct(AIML_TABLES) && forall t :: t in AIML_TABLES ==> Family(t) == 15
  {
  }

  lemma {:induction false} MultimodalLists()
    ensures Distinct(MULTIMODAL_TABLES)
  {
    forall i, j | 0 <= i < j < |MULTIMODAL_TABLES|
      ensures MULTIMODAL_TABLES[i] != MULTIMODAL_TABLES[j]
    {
      var s, t := MULTIMODAL_TABLES[i], MULTIMODAL_TABLES[j];
      assert |s| == |t| ==> s[|s| - 5] != t[|t| - 5];
    }
  }

  lemma {:induction false} WorkflowLists()
    ensures Distinct(WORKFLOW_TABLES)
  {
  }

  const LOST := {"automation_approvals", "automation_checkpoints"}

  /** 0002 and 0009 list exactly two tables in common. */
  lemma {:induction false} SharedTables()
    ensures Elements(WORKFLOW_TABLES) * Elements(AUTOMATION_TABLES) == LOST
  {
  }
}
