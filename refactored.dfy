/**
  The list of resource types whose enumeration has been refactored
  (pkg/resource/resource.go), and the membership test over it.
*/
module Refactored {

  /** The resource types whose enumeration has been refactored, in the source's order.  The
      entries the source has commented out are not listed.  The list is written as two runs
      so that reasoning about membership stays cheap. */
  const RefactoredResources: seq<string> := RefactoredHead + RefactoredTail

  const RefactoredHead: seq<string> := [
    "aws_ami",
    "aws_cloudfront_distribution",
    "aws_db_instance",
    "aws_db_subnet_group",
    "aws_default_route_table",
    "aws_default_security_group",
    "aws_default_subnet",
    "aws_default_vpc",
    "aws_dynamodb_table",
    "aws_ebs_snapshot",
    "aws_ebs_volume",
    "aws_ecr_repository",
    "aws_eip",
    "aws_eip_association",
    "aws_iam_access_key",
    "aws_iam_policy",
    "aws_iam_policy_attachment",
    "aws_iam_role",
    "aws_iam_role_policy",
    "aws_iam_role_policy_attachment",
    "aws_iam_user",
    "aws_iam_user_policy",
    "aws_iam_user_policy_attachment",
    "aws_instance",
    "aws_internet_gateway"
  ]

  const RefactoredTail: seq<string> := [
    "aws_key_pair",
    "aws_kms_alias",
    "aws_kms_key",
    "aws_nat_gateway",
    "aws_route",
    "aws_route53_health_check",
    "aws_route53_record",
    "aws_route53_zone",
    "aws_route_table",
    "aws_route_table_association",
    "aws_s3_bucket",
    "aws_s3_bucket_analytics_configuration",
    "aws_s3_bucket_inventory",
    "aws_s3_bucket_metric",
    "aws_s3_bucket_notification",
    "aws_s3_bucket_policy",
    "aws_sns_topic",
    "aws_sns_topic_policy",
    "aws_sns_topic_subscription",
    "github_branch_protection",
    "github_membership",
    "github_repository",
    "github_team",
    "github_team_membership"
  ]

  /** Linear search of the refactored list. */
  method IsRefactoredResource(typ: string) returns (found: bool)
    ensures found <==> typ in RefactoredResources
  {
    for i := 0 to |RefactoredResources|
      invariant typ !in RefactoredResources[..i]
    {
      if typ == RefactoredResources[i] {
        return true;
      }
    }
    return false;
  }

  // The types the source lists only in comments are not refactored.

  lemma LambdaEventSourceMappingNotRefactored()
    ensures "aws_lambda_event_source_mapping" !in RefactoredResources
  {
  }

  lemma LambdaFunctionNotRefactored()
    ensures "aws_lambda_function" !in RefactoredResources
  {
  }

  lemma SecurityGroupNotRefactored()
    ensures "aws_security_group" !in RefactoredResources
  {
  }

  lemma SecurityGroupRuleNotRefactored()
    ensures "aws_security_group_rule" !in RefactoredResources
  {
  }

  lemma SqsQueueNotRefactored()
    ensures "aws_sqs_queue" !in RefactoredResources
  {
  }

  lemma SqsQueuePolicyNotRefactored()
    ensures "aws_sqs_queue_policy" !in RefactoredResources
  {
  }

  lemma SubnetNotRefactored()
    ensures "aws_subnet" !in RefactoredResources
  {
  }

  lemma VpcNotRefactored()
    ensures "aws_vpc" !in RefactoredResources
  {
  }
}
